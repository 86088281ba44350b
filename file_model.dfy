/**
 * The `File` model class: its rule registry, size policy and `mime` field,
 * the values of the entity's declared properties, and the methods that
 * update them in place.
 */
module FileModel {
  import opened Outcomes
  import opened Strings
  import opened SizePolicy
  import opened Registry
  import opened Validator
  import opened Placement
  import opened Commit

  /** What `uploadFiles` was given: an array (or an `Object`, already converted)
      of `$ppt => $info` entries, or some other value. */
  datatype FilesArgument = Batch(entries: seq<Entry>) | NotABatch

  /** The names of `File`'s own fields, which are never upload properties. */
  const OwnFields: set<string> := {"extensions", "badExtensions", "maxSize", "altNameProperty", "mime"}

  class File {
    /** The entity's declared upload properties; `File`'s own fields are excluded. */
    const declared: set<string>

    var extensions: Lists
    var badExtensions: Lists
    var maxSize: RawSize
    var altNameProperty: Option<string>
    var mime: Option<string>
    /** The current value of each declared property. */
    var props: map<string, Value>

    ghost predicate Valid()
      reads this
    {
      props.Keys == declared && declared !! OwnFields
    }

    /** A fresh entity: no lists, no limit, no alternate name, every property null. */
    constructor (declared: set<string>)
      requires declared !! OwnFields
      ensures Valid() && this.declared == declared
      ensures extensions == map[] && badExtensions == map[]
      ensures maxSize == Unset && altNameProperty == None && mime == None
      ensures forall p :: p in props ==> props[p] == Null
    {
      this.declared := declared;
      extensions := map[];
      badExtensions := map[];
      maxSize := Unset;
      altNameProperty := None;
      mime := None;
      props := map p | p in declared :: Null;
    }

    /** The rules the validator and the placement step read. */
    function CurrentRules(): (r: Rules)
      reads this
    {
      Rules(extensions, badExtensions, altNameProperty)
    }

    /** The part of the object an upload changes. */
    function CurrentEntity(): (e: Entity)
      reads this
    {
      Entity(props, mime, maxSize)
    }

    /** `addExtension`: appends to the property's allow-list, or throws for an undeclared property. */
    method AddExtension(property: string, ext: string) returns (r: Outcome)
      modifies this`extensions
      ensures property in declared ==> r == Done && extensions == Append(old(extensions), property, ext)
      ensures property !in declared ==> r == Raised(UnknownProperty(property)) && extensions == old(extensions)
    {
      if property !in declared {
        return Raised(UnknownProperty(property));
      }
      extensions := Append(extensions, property, ext);
      r := Done;
    }

    /** `setExtensions`: replaces the property's allow-list, or throws for an undeclared property. */
    method SetExtensions(property: string, exts: seq<string>) returns (r: Outcome)
      modifies this`extensions
      ensures property in declared ==> r == Done && extensions == Replace(old(extensions), property, exts)
      ensures property !in declared ==> r == Raised(UnknownProperty(property)) && extensions == old(extensions)
    {
      if property !in declared {
        return Raised(UnknownProperty(property));
      }
      extensions := Replace(extensions, property, exts);
      r := Done;
    }

    /** `addBadExtension`: appends to the property's deny-list, or throws for an undeclared property. */
    method AddBadExtension(property: string, ext: string) returns (r: Outcome)
      modifies this`badExtensions
      ensures property in declared ==> r == Done && badExtensions == Append(old(badExtensions), property, ext)
      ensures property !in declared ==> r == Raised(UnknownProperty(property)) && badExtensions == old(badExtensions)
    {
      if property !in declared {
        return Raised(UnknownProperty(property));
      }
      badExtensions := Append(badExtensions, property, ext);
      r := Done;
    }

    /** `setBadExtensions`: replaces the property's deny-list, or throws for an undeclared property. */
    method SetBadExtensions(property: string, exts: seq<string>) returns (r: Outcome)
      modifies this`badExtensions
      ensures property in declared ==> r == Done && badExtensions == Replace(old(badExtensions), property, exts)
      ensures property !in declared ==> r == Raised(UnknownProperty(property)) && badExtensions == old(badExtensions)
    {
      if property !in declared {
        return Raised(UnknownProperty(property));
      }
      badExtensions := Replace(badExtensions, property, exts);
      r := Done;
    }

    /** `setAltNameProperty`: one alternate-name property for every upload, not checked against the declared ones. */
    method SetAltNameProperty(property: Option<string>)
      modifies this`altNameProperty
      ensures altNameProperty == property
    {
      altNameProperty := property;
    }

    /** `setMaxSize`: stores the value as given; it is parsed only when used. */
    method SetMaxSize(size: RawSize)
      modifies this`maxSize
      ensures maxSize == size
    {
      maxSize := size;
    }

    /** `getMaxSize`: fills an unset limit from the runtime default, keeps it, and parses it. */
    method GetMaxSize(iniDefault: string) returns (r: SizeResult)
      modifies this`maxSize
      ensures maxSize == ResolveMax(old(maxSize), iniDefault)
      ensures old(maxSize).Unset? ==> maxSize == StrSize(iniDefault)
      ensures r == ParseSize(maxSize)
    {
      if maxSize == Unset {
        maxSize := StrSize(iniDefault);
      }
      r := ParseSize(maxSize);
    }

    /** `sizeIsOk`: true exactly when the size does not exceed the parsed limit
        (equality passes); the limit is resolved and cached on the way. */
    method SizeIsOk(size: int, iniDefault: string) returns (r: Result<bool>)
      modifies this`maxSize
      ensures maxSize == ResolveMax(old(maxSize), iniDefault)
      ensures r == SizeAdmits(size, ParseSize(maxSize))
      ensures ParseSize(maxSize).Bytes? ==> r == Ok(size <= ParseSize(maxSize).n)
    {
      var limit := GetMaxSize(iniDefault);
      r := SizeAdmits(size, limit);
    }

    /** `extensionIsOk`, judged by this object's current lists. */
    function ExtensionIsOk(property: string, extension: string): (r: Option<string>)
      reads this`extensions, this`badExtensions, this`altNameProperty
      ensures r.Some? <==>
                (property !in extensions || Lower(extension) in extensions[property]) &&
                !(property in badExtensions && Lower(extension) in badExtensions[property])
      ensures r.Some? ==> r.value == Lower(extension)
    {
      ExtensionVerdict(Rules(extensions, badExtensions, altNameProperty), property, extension)
    }

    /** `fileIsOk`: false on a transport error or an oversize file, leaving `mime`
        alone; otherwise `mime` takes the declared type before the extension decides. */
    method FileIsOk(property: string, info: Descriptor, iniDefault: string) returns (r: Result<Option<string>>)
      modifies this`maxSize, this`mime
      ensures var c := CheckFile(Rules(extensions, badExtensions, altNameProperty), old(maxSize), old(mime), property, info, iniDefault);
        r == c.verdict && maxSize == c.maxSize && mime == c.mime
    {
      ghost var rules := Rules(extensions, badExtensions, altNameProperty);
      ghost var c := CheckFile(rules, maxSize, mime, property, info, iniDefault);
      if info.error != UPLOAD_ERR_OK {
        return Ok(None);
      }
      ghost var resolved := ResolveMax(maxSize, iniDefault);
      var fits := SizeIsOk(info.size, iniDefault);
      assert maxSize == resolved == c.maxSize;
      assert fits == SizeAdmits(info.size, ParseSize(resolved));
      if fits.Thrown? {
        assert c == Check(Thrown(fits.error), resolved, old(mime));
        return Thrown(fits.error);
      }
      if !fits.value {
        assert c == Check(Ok(None), resolved, old(mime));
        return Ok(None);
      }
      // `extensionIsOk` on this object's lists, as `ExtensionIsOk` states it
      var verdict := ExtensionVerdict(Rules(extensions, badExtensions, altNameProperty), property, ExtensionOf(BaseName(info.name)));
      assert c == Check(Ok(verdict), resolved, Some(info.mimeType));
      mime := Some(info.mimeType);
      r := Ok(verdict);
    }

    /** `unlink($property)`: deletes the file a declared property names, if it is one. */
    function Unlink(property: string, disk: Disk, unlinkOk: bool): (r: Unlinked)
      reads this
      ensures property !in props ==> r == Unlinked(true, disk)
      ensures property in props ==> r == UnlinkValue(props[property], disk, unlinkOk)
    {
      if property in props then UnlinkValue(props[property], disk, unlinkOk) else Unlinked(true, disk)
    }

    function GetMime(): (r: Option<string>)
      reads this
      ensures r == mime
    {
      mime
    }

    method SetMime(m: Option<string>)
      modifies this`mime
      ensures mime == m
    {
      mime := m;
    }

    /** One pass of the `foreach` in `uploadFiles`: skip, validate, make the
        directory, name, move and unlink, exactly as `Commit.StepEntry` says;
        `stop` tells whether the call ends here with `r`. */
    method CommitEntry(entry: Entry, env: Env, disk: Disk, cfg: Config)
      returns (stop: bool, r: Result<bool>, disk': Disk)
      requires Valid()
      modifies this`props, this`mime, this`maxSize
      ensures Valid()
      ensures var s := StepEntry(AsWritten, old(CurrentRules()), cfg, old(CurrentEntity()), disk, entry, env);
        && stop == s.Halt? && CurrentEntity() == s.entity && disk' == s.disk
        && (stop ==> r == s.outcome)
    {
      ghost var rules, e0 := CurrentRules(), CurrentEntity();
      ghost var s := StepEntry(AsWritten, rules, cfg, e0, disk, entry, env);
      disk' := disk;
      stop, r := false, Ok(true);
      var property, info := entry.0, entry.1;
      if Falsy(info.name) || property !in props {
        return;
      }
      ghost var c := CheckFile(rules, e0.maxSize, e0.mime, property, info, cfg.iniDefault);
      ghost var checked := e0.(maxSize := c.maxSize, mime := c.mime);
      var verdict := FileIsOk(property, info, cfg.iniDefault);
      assert verdict == c.verdict && CurrentEntity() == checked;
      if verdict.Thrown? {
        return true, Thrown(verdict.error), disk';
      }
      if verdict.value.None? || Falsy(verdict.value.value) {
        return true, Ok(false), disk';
      }
      var ext := verdict.value.value;
      var dir := TargetDir(cfg.dataRoot, cfg.bucket, ext);
      if dir !in disk'.dirs && !env.mkdirOk {
        return true, Thrown(PermissionDenied(cfg.dataRoot)), disk';
      }
      disk' := disk'.(dirs := disk'.dirs + {dir});
      var dest := dir + "/" + GeneratedName(altNameProperty, props, info.name, ext, env.now);
      if !env.moveOk {
        assert s == Halt(Ok(false), checked, disk');
        return true, Ok(false), disk';
      }
      disk' := Move(disk', info.tmpName, dest);
      // `$this->unlink($ppt)`; its result is ignored
      var unlinked := Unlink(property, disk', env.unlinkOk);
      disk' := unlinked.disk;
      props := props[property := Text(dest)];
      assert s == Continue(CurrentEntity(), disk');
    }

    /** `uploadFiles`: walks the batch in order and ends up exactly where
        `Commit.Upload` says, returning its result and the new filesystem. */
    method UploadFiles(files: FilesArgument, disk: Disk, envs: seq<Env>, cfg: Config)
      returns (r: Result<bool>, disk': Disk)
      requires Valid()
      requires files.Batch? ==> |envs| == |files.entries|
      modifies this`props, this`mime, this`maxSize
      ensures Valid()
      ensures files.NotABatch? ==>
                r == Thrown(InvalidFilesArgument) && disk' == disk && CurrentEntity() == old(CurrentEntity())
      ensures files.Batch? ==>
                var run := Upload(AsWritten, old(CurrentRules()), cfg, old(CurrentEntity()), disk, files.entries, envs);
                r == run.outcome && CurrentEntity() == run.entity && disk' == run.disk
    {
      if files.NotABatch? {
        return Thrown(InvalidFilesArgument), disk;
      }
      var batch := files.entries;
      ghost var rules := CurrentRules();
      ghost var goal := Upload(AsWritten, rules, cfg, CurrentEntity(), disk, batch, envs);
      disk' := disk;
      var i := 0;
      while i < |batch|
        invariant 0 <= i <= |batch|
        invariant CurrentRules() == rules && Valid()
        invariant Upload(AsWritten, rules, cfg, CurrentEntity(), disk', batch[i..], envs[i..]) == goal
      {
        assert batch[i..][0] == batch[i] && envs[i..][0] == envs[i];
        assert batch[i..][1..] == batch[i + 1..] && envs[i..][1..] == envs[i + 1..];
        var stop;
        stop, r, disk' := CommitEntry(batch[i], envs[i], disk', cfg);
        if stop {
          return;
        }
        i := i + 1;
      }
      r := Ok(true);
      assert batch[i..] == [];
    }
  }
}
