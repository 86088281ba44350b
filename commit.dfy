/**
 * The commit orchestrator `uploadFiles`, as a function of the entity's state,
 * the filesystem and the per-entry outcomes of the calls it cannot see
 * (clock, mkdir, move, unlink). `FileModel.File.UploadFiles` is proved to
 * compute exactly this under the `AsWritten` commit policy; the `Corrected`
 * policy is the intended behaviour.
 */
module Commit {
  import opened Outcomes
  import opened Strings
  import opened SizePolicy
  import opened Registry
  import opened Validator
  import opened Placement

  /** What the environment answers while one batch entry is processed:
      `time()`, whether `mkdir` succeeds, whether `move_uploaded_file`
      succeeds, and whether `unlink` of the old file succeeds. */
  datatype Env = Env(now: nat, mkdirOk: bool, moveOk: bool, unlinkOk: bool)

  /** The runtime's `upload_max_filesize`, the `DATA` root and the entity's bucket name. */
  datatype Config = Config(iniDefault: string, dataRoot: string, bucket: string)

  /** The part of the entity that an upload changes. */
  datatype Entity = Entity(props: map<string, Value>, mime: Option<string>, maxSize: RawSize)

  /** One `$ppt => $info` pair of the batch. */
  type Entry = (string, Descriptor)

  /** Entries that are passed over: an empty name, or a key that is not a declared property. */
  predicate Skipped(e: Entity, entry: Entry) {
    Falsy(entry.1.name) || entry.0 !in e.props
  }

  /** The lower-cased extension of an upload's base name. */
  function UploadExtension(info: Descriptor): string {
    Lower(ExtensionOf(BaseName(info.name)))
  }

  /** Where an accepted upload is stored: `<root><bucket>/<ext>/<generated name>`,
      a file directly inside its extension directory. */
  function Destination(rules: Rules, cfg: Config, props: map<string, Value>, info: Descriptor, now: nat): (path: string)
    ensures StoredUnder(Text(path), TargetDir(cfg.dataRoot, cfg.bucket, UploadExtension(info)))
  {
    var raw := ExtensionOf(BaseName(info.name));
    ExtensionOfBaseNameIsPlain(info.name);
    LowerKeepsSeparatorFree(raw);
    var ext := UploadExtension(info);
    var dir := TargetDir(cfg.dataRoot, cfg.bucket, ext);
    var name := GeneratedName(rules.altName, props, info.name, ext, now);
    JoinIsStoredUnder(dir, name);
    dir + "/" + name
  }

  /** A separator-free name joined onto a directory lies directly inside it. */
  lemma JoinIsStoredUnder(dir: string, name: string)
    requires '/' !in name
    ensures StoredUnder(Text(dir + "/" + name), dir)
  {
    var path := dir + "/" + name;
    assert path[..|dir| + 1] == dir + "/";
    assert path[|dir| + 1..] == name;
  }

  /** `v` is a path directly inside directory `dir`. */
  predicate StoredUnder(v: Value, dir: string) {
    v.Text? && |dir| < |v.s| && v.s[..|dir| + 1] == dir + "/" && '/' !in v.s[|dir| + 1..]
  }

  /** The effect of one entry: carry on with a new state, or stop the batch
      with a result (false, or an exception) and the state reached so far. */
  datatype Step = Continue(entity: Entity, disk: Disk) | Halt(outcome: Result<bool>, entity: Entity, disk: Disk)

  /** What `fileIsOk` makes of an entry, given the entity's current limit and `mime`. */
  function Checked(rules: Rules, cfg: Config, e: Entity, entry: Entry): Check {
    CheckFile(rules, e.maxSize, e.mime, entry.0, entry.1, cfg.iniDefault)
  }

  /** The validator returned an extension that is not empty in PHP's sense. */
  predicate Accepted(c: Check)
    ensures Accepted(c) ==> c.verdict.Ok? && c.verdict.value.Some?
    ensures c.verdict.Ok? && c.verdict.value.Some? ==>
              (Accepted(c) <==> |c.verdict.value.value| >= 2 || (|c.verdict.value.value| == 1 && c.verdict.value.value[0] != '0'))
  {
    c.verdict.Ok? && c.verdict.value.Some? && !Falsy(c.verdict.value.value)
  }

  /** The entity after `fileIsOk` has cached the limit and possibly written `mime`. */
  function AfterCheck(e: Entity, c: Check): Entity {
    e.(maxSize := c.maxSize, mime := c.mime)
  }

  /** The directory an entry's upload goes into. */
  function DirFor(cfg: Config, entry: Entry): string {
    TargetDir(cfg.dataRoot, cfg.bucket, UploadExtension(entry.1))
  }

  /** One iteration of the `foreach` in `uploadFiles`; `policy` says which commit
      is performed after a successful move. */
  function StepEntry(policy: Policy, rules: Rules, cfg: Config, e: Entity, disk: Disk, entry: Entry, env: Env): (s: Step)
    ensures s.entity.props.Keys == e.props.Keys
    // skipped entries
    ensures Skipped(e, entry) ==> s == Continue(e, disk)
    // no halt assigns a property or touches a file, and none reports true
    ensures s.Halt? ==> s.entity.props == e.props && s.outcome != Ok(true) && s.disk.files == disk.files
    // a validator exception propagates
    ensures var c := Checked(rules, cfg, e, entry);
      !Skipped(e, entry) && c.verdict.Thrown? ==> s == Halt(Thrown(c.verdict.error), AfterCheck(e, c), disk)
    // a validator rejection, or an empty extension, returns false
    ensures var c := Checked(rules, cfg, e, entry);
      !Skipped(e, entry) && c.verdict.Ok? && !Accepted(c) ==> s == Halt(Ok(false), AfterCheck(e, c), disk)
    // an accepted entry goes on to the directory, the move and the commit
    ensures var c := Checked(rules, cfg, e, entry);
      !Skipped(e, entry) && Accepted(c) ==> s == Store(policy, rules, cfg, e.props, AfterCheck(e, c), disk, entry, env)
    ensures s.Continue? && !Skipped(e, entry) ==>
              var c := Checked(rules, cfg, e, entry);
              && Accepted(c) && c.verdict.value.value == UploadExtension(entry.1)
              && s.entity.mime == Some(entry.1.mimeType)
              && s.entity.props == e.props[entry.0 := Text(Destination(rules, cfg, e.props, entry.1, env.now))]
  {
    if Skipped(e, entry) then Continue(e, disk)
    else
      var c := Checked(rules, cfg, e, entry);
      var checked := AfterCheck(e, c);
      match c.verdict
      case Thrown(err) => Halt(Thrown(err), checked, disk)
      case Ok(verdict) =>
        if verdict.None? || Falsy(verdict.value) then Halt(Ok(false), checked, disk)
        else Store(policy, rules, cfg, e.props, checked, disk, entry, env)
  }

  /** The rest of an iteration once the upload is accepted: make the extension
      directory if it is missing, name the file, move it into place, commit it
      under `policy` and record the new path in the property. */
  function Store(policy: Policy, rules: Rules, cfg: Config, props: map<string, Value>, checked: Entity,
                 disk: Disk, entry: Entry, env: Env): (s: Step)
    requires entry.0 in props
    ensures DirFor(cfg, entry) !in disk.dirs && !env.mkdirOk ==>
              s == Halt(Thrown(PermissionDenied(cfg.dataRoot)), checked, disk)
    ensures (DirFor(cfg, entry) in disk.dirs || env.mkdirOk) && !env.moveOk ==>
              s == Halt(Ok(false), checked, disk.(dirs := disk.dirs + {DirFor(cfg, entry)}))
    ensures (DirFor(cfg, entry) in disk.dirs || env.mkdirOk) && env.moveOk ==>
              var dest := Destination(rules, cfg, props, entry.1, env.now);
              s == Continue(checked.(props := props[entry.0 := Text(dest)]),
                            Settle(policy, disk.(dirs := disk.dirs + {DirFor(cfg, entry)}),
                                   entry.1.tmpName, dest, props[entry.0], env.unlinkOk))
    // a halt keeps the checked entity and every file; a continue records the destination
    ensures s.Halt? ==> s.entity == checked && s.outcome != Ok(true) && s.disk.files == disk.files
    ensures s.Continue? ==> s.entity == checked.(props := props[entry.0 := Text(Destination(rules, cfg, props, entry.1, env.now))])
    // the committed disk, stated against the disk before the directory was made;
    // nothing is created but the destination, and no other file is touched
    ensures s.Continue? ==>
              var dest := Destination(rules, cfg, props, entry.1, env.now);
              var previous := props[entry.0];
              && s.disk.dirs == disk.dirs + {DirFor(cfg, entry)}
              && (dest in s.disk.files <==> !(policy.AsWritten? && previous == Text(dest) && env.unlinkOk))
              && (entry.1.tmpName != dest ==> entry.1.tmpName !in s.disk.files)
              && (previous.Text? && previous.s != dest && previous.s != entry.1.tmpName && previous.s in disk.files ==>
                    (previous.s !in s.disk.files <==> env.unlinkOk))
              && s.disk.files <= disk.files + {dest}
              && (forall f :: f != entry.1.tmpName && f != dest && !(previous.Text? && f == previous.s) ==>
                    (f in s.disk.files <==> f in disk.files))
  {
    var ext := UploadExtension(entry.1);
    var dir := TargetDir(cfg.dataRoot, cfg.bucket, ext);
    if dir !in disk.dirs && !env.mkdirOk then Halt(Thrown(PermissionDenied(cfg.dataRoot)), checked, disk)
    else
      var made := disk.(dirs := disk.dirs + {dir});
      var dest := dir + "/" + GeneratedName(rules.altName, props, entry.1.name, ext, env.now);
      if env.moveOk then
        Continue(checked.(props := props[entry.0 := Text(dest)]),
                 Settle(policy, made, entry.1.tmpName, dest, props[entry.0], env.unlinkOk))
      else Halt(Ok(false), checked, made)
  }

  /** The outcome of a whole call and the state it leaves behind. */
  datatype Run = Run(outcome: Result<bool>, entity: Entity, disk: Disk)

  /** `uploadFiles` over a batch: entries in order, the first rejection or
      exception ends the call, nothing already committed is undone. */
  function Upload(policy: Policy, rules: Rules, cfg: Config, e: Entity, disk: Disk, batch: seq<Entry>, envs: seq<Env>): (r: Run)
    requires |envs| == |batch|
    ensures r.entity.props.Keys == e.props.Keys
    decreases |batch|
  {
    if batch == [] then Run(Ok(true), e, disk)
    else
      match StepEntry(policy, rules, cfg, e, disk, batch[0], envs[0])
      case Continue(e1, d1) => Upload(policy, rules, cfg, e1, d1, batch[1..], envs[1..])
      case Halt(o, e1, d1) => Run(o, e1, d1)
  }

  /** Running two batches back to back is running the first and, only if it
      succeeded, the second from where the first left off. */
  lemma {:induction false} UploadConcat(policy: Policy, rules: Rules, cfg: Config, e: Entity, disk: Disk,
                                        a: seq<Entry>, b: seq<Entry>, ea: seq<Env>, eb: seq<Env>)
    requires |ea| == |a| && |eb| == |b|
    ensures var first := Upload(policy, rules, cfg, e, disk, a, ea);
      Upload(policy, rules, cfg, e, disk, a + b, ea + eb) ==
        if first.outcome == Ok(true) then Upload(policy, rules, cfg, first.entity, first.disk, b, eb) else first
    decreases |a|
  {
    if a != [] {
      assert (a + b)[0] == a[0] && (ea + eb)[0] == ea[0];
      assert (a + b)[1..] == a[1..] + b && (ea + eb)[1..] == ea[1..] + eb;
      match StepEntry(policy, rules, cfg, e, disk, a[0], ea[0])
      case Continue(e1, d1) =>
        UploadConcat(policy, rules, cfg, e1, d1, a[1..], b, ea[1..], eb);
      case Halt(o, e1, d1) =>
    } else {
      assert a + b == b && ea + eb == eb;
    }
  }

  /** A batch whose every entry is skipped succeeds and changes nothing. */
  lemma {:induction false} AllSkippedIsNoOp(policy: Policy, rules: Rules, cfg: Config, e: Entity, disk: Disk,
                                            batch: seq<Entry>, envs: seq<Env>)
    requires |envs| == |batch|
    requires forall i :: 0 <= i < |batch| ==> Skipped(e, batch[i])
    ensures Upload(policy, rules, cfg, e, disk, batch, envs) == Run(Ok(true), e, disk)
    decreases |batch|
  {
    if batch != [] {
      assert Skipped(e, batch[0]);
      AllSkippedIsNoOp(policy, rules, cfg, e, disk, batch[1..], envs[1..]);
    }
  }

  /** A declared property that no non-empty entry names keeps its value,
      whatever the outcome. */
  lemma {:induction false} UntouchedPropertyKeepsValue(policy: Policy, rules: Rules, cfg: Config, e: Entity, disk: Disk,
                                                       batch: seq<Entry>, envs: seq<Env>, q: string)
    requires |envs| == |batch|
    requires q in e.props
    requires forall i :: 0 <= i < |batch| && !Falsy(batch[i].1.name) ==> batch[i].0 != q
    ensures Upload(policy, rules, cfg, e, disk, batch, envs).entity.props[q] == e.props[q]
    decreases |batch|
  {
    if batch != [] {
      match StepEntry(policy, rules, cfg, e, disk, batch[0], envs[0])
      case Continue(e1, d1) =>
        UntouchedPropertyKeepsValue(policy, rules, cfg, e1, d1, batch[1..], envs[1..], q);
      case Halt(o, e1, d1) =>
    }
  }

  /** Batch keys are distinct, as the keys of a PHP array are. */
  predicate DistinctKeys(batch: seq<Entry>) {
    forall i, j :: 0 <= i < j < |batch| ==> batch[i].0 != batch[j].0
  }

  /** A call that returns true has stored every entry it did not skip: the
      entry's property now names a file directly inside the directory of the
      upload's extension. */
  lemma {:induction false} SuccessStoresEveryEntry(policy: Policy, rules: Rules, cfg: Config, e: Entity, disk: Disk,
                                                   batch: seq<Entry>, envs: seq<Env>, k: nat)
    requires |envs| == |batch| && DistinctKeys(batch)
    requires k < |batch| && !Skipped(e, batch[k])
    requires Upload(policy, rules, cfg, e, disk, batch, envs).outcome == Ok(true)
    ensures StoredUnder(Upload(policy, rules, cfg, e, disk, batch, envs).entity.props[batch[k].0],
                        TargetDir(cfg.dataRoot, cfg.bucket, UploadExtension(batch[k].1)))
    decreases |batch|
  {
    var s := StepEntry(policy, rules, cfg, e, disk, batch[0], envs[0]);
    assert s.Continue?;
    var rest := batch[1..];
    if k == 0 {
      forall i | 0 <= i < |rest| && !Falsy(rest[i].1.name) ensures rest[i].0 != batch[0].0 {
        assert rest[i] == batch[i + 1];
      }
      UntouchedPropertyKeepsValue(policy, rules, cfg, s.entity, s.disk, rest, envs[1..], batch[0].0);
    } else {
      assert batch[k] == rest[k - 1];
      SuccessStoresEveryEntry(policy, rules, cfg, s.entity, s.disk, rest, envs[1..], k - 1);
    }
  }

  /** No rollback: when a batch that succeeded is followed by an entry that
      stops the call, the call reports that entry's outcome, every property
      keeps the value the successful part gave it, and so does every file. */
  lemma FailureKeepsEarlierCommits(policy: Policy, rules: Rules, cfg: Config, e: Entity, disk: Disk,
                                   a: seq<Entry>, ea: seq<Env>, b: seq<Entry>, eb: seq<Env>)
    requires |ea| == |a| && |eb| == |b| && b != []
    requires Upload(policy, rules, cfg, e, disk, a, ea).outcome == Ok(true)
    requires var first := Upload(policy, rules, cfg, e, disk, a, ea);
      StepEntry(policy, rules, cfg, first.entity, first.disk, b[0], eb[0]).Halt?
    ensures var first := Upload(policy, rules, cfg, e, disk, a, ea);
      var whole := Upload(policy, rules, cfg, e, disk, a + b, ea + eb);
      && whole.outcome == StepEntry(policy, rules, cfg, first.entity, first.disk, b[0], eb[0]).outcome
      && whole.outcome != Ok(true)
      && whole.entity.props == first.entity.props
      && whole.disk.files == first.disk.files
  {
    UploadConcat(policy, rules, cfg, e, disk, a, b, ea, eb);
  }

  /** An entry whose transport reported an error makes the call return false
      and leaves the entity and the disk exactly as they were. */
  lemma TransportErrorRejects(policy: Policy, rules: Rules, cfg: Config, e: Entity, disk: Disk, entry: Entry, env: Env)
    requires !Skipped(e, entry) && entry.1.error != UPLOAD_ERR_OK
    ensures Upload(policy, rules, cfg, e, disk, [entry], [env]) == Run(Ok(false), e, disk)
  {
  }

  /** An upload whose name has no `.` has the empty extension, which the call
      treats as a rejection once the transport and size checks pass. */
  lemma NameWithoutDotRejects(policy: Policy, rules: Rules, cfg: Config, e: Entity, disk: Disk, entry: Entry, env: Env)
    requires !Skipped(e, entry) && entry.1.error == UPLOAD_ERR_OK
    requires '.' !in BaseName(entry.1.name)
    requires SizeAdmits(entry.1.size, ParseSize(ResolveMax(e.maxSize, cfg.iniDefault))) == Ok(true)
    ensures Upload(policy, rules, cfg, e, disk, [entry], [env]).outcome == Ok(false)
  {
  }

  /** One re-upload onto the path the property already holds continues, keeps
      that path in the property, and leaves the file on disk only under the
      corrected commit. */
  lemma ReuploadStepOntoOwnPath(policy: Policy, rules: Rules, cfg: Config, e: Entity, disk: Disk, entry: Entry, env: Env)
    requires !Skipped(e, entry) && Accepted(Checked(rules, cfg, e, entry))
    requires DirFor(cfg, entry) in disk.dirs || env.mkdirOk
    requires env.moveOk && env.unlinkOk
    requires e.props[entry.0] == Text(Destination(rules, cfg, e.props, entry.1, env.now))
    ensures var s := StepEntry(policy, rules, cfg, e, disk, entry, env);
      var dest := Destination(rules, cfg, e.props, entry.1, env.now);
      s.Continue? && s.entity.props[entry.0] == Text(dest) && (dest in s.disk.files <==> policy.Corrected?)
  {
  }

  /** Re-uploading onto the path a property already holds (an unchanged
      alternate name, or the same name within the same second): the call
      returns true and the property still names that path, but as the code is
      written the file is gone, while the corrected commit keeps it. */
  lemma ReuploadOntoOwnPath(policy: Policy, rules: Rules, cfg: Config, e: Entity, disk: Disk, entry: Entry, env: Env)
    requires !Skipped(e, entry) && Accepted(Checked(rules, cfg, e, entry))
    requires DirFor(cfg, entry) in disk.dirs || env.mkdirOk
    requires env.moveOk && env.unlinkOk
    requires e.props[entry.0] == Text(Destination(rules, cfg, e.props, entry.1, env.now))
    ensures var r := Upload(policy, rules, cfg, e, disk, [entry], [env]);
      var dest := Destination(rules, cfg, e.props, entry.1, env.now);
      && r.outcome == Ok(true)
      && r.entity.props[entry.0] == Text(dest)
      && (dest in r.disk.files <==> policy.Corrected?)
  {
    ReuploadStepOntoOwnPath(policy, rules, cfg, e, disk, entry, env);
    UploadSingle(policy, rules, cfg, e, disk, entry, env);
  }

  /** A one-entry batch is that entry's step. */
  lemma UploadSingle(policy: Policy, rules: Rules, cfg: Config, e: Entity, disk: Disk, entry: Entry, env: Env)
    ensures var s := StepEntry(policy, rules, cfg, e, disk, entry, env);
      Upload(policy, rules, cfg, e, disk, [entry], [env]) ==
        if s.Continue? then Run(Ok(true), s.entity, s.disk) else Run(s.outcome, s.entity, s.disk)
  {
    assert [entry][1..] == [] && [env][1..] == [];
  }
}
