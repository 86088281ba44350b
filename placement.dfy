/**
 * The placement engine: the destination directory, the generated file name,
 * and the effect of moving an upload into place and unlinking the file a
 * property held before, on an abstract filesystem.
 */
module Placement {
  import opened Outcomes
  import opened Strings

  /** A property value as far as the upload code looks at it: null, a string,
      or another scalar together with its PHP string conversion. */
  datatype Value = Null | Text(s: string) | Scalar(shown: string)

  /** PHP's string conversion of a property value (null becomes ""). */
  function Show(v: Value): string {
    match v
    case Null => ""
    case Text(s) => s
    case Scalar(shown) => shown
  }

  /** The filesystem: the regular files and the directories that exist. */
  datatype Disk = Disk(files: set<string>, dirs: set<string>)

  /** `DATA . bucket . DIRECTORY_SEPARATOR . $extension` (the data root carries its own trailing separator). */
  function TargetDir(dataRoot: string, bucket: string, ext: string): string {
    dataRoot + bucket + "/" + ext
  }

  /** The value of property `p` as `$this->$p` reads it; an undeclared property reads as null. */
  function PropertyValue(props: map<string, Value>, p: string): (v: Value)
    ensures p in props ==> v == props[p]
    ensures p !in props ==> v == Null && Show(v) == ""
  {
    if p in props then props[p] else Null
  }

  /** Joining two strings of safe characters gives one. */
  lemma SafeConcat(a: string, b: string)
    requires AllSafe(a) && AllSafe(b)
    ensures AllSafe(a + b)
  {
    forall i | 0 <= i < |a + b| ensures IsSafeChar((a + b)[i]) {
      if i >= |a| { assert (a + b)[i] == b[i - |a|]; }
    }
  }

  /** A string of safe characters has no directory separator. */
  lemma SafeHasNoSeparator(a: string)
    requires AllSafe(a)
    ensures '/' !in a
  {
  }

  /** Where the parts of `d + "_" + base` sit. */
  lemma JoinParts(d: string, base: string)
    ensures var name := d + "_" + base;
      && |name| == |d| + 1 + |base|
      && name[..|d|] == d
      && name[|name| - |base| - 1..] == "_" + base
      && name[|name| - |base|..] == base
  {
    var name := d + "_" + base;
    assert name == d + ("_" + base);
  }

  /** Two safe strings joined by "_" make a safe name without a separator. */
  lemma SafeJoin(d: string, base: string)
    requires AllSafe(d) && AllSafe(base)
    ensures AllSafe(d + "_" + base) && '/' !in d + "_" + base
  {
    SafeConcat(d, "_");
    SafeConcat(d + "_", base);
    SafeHasNoSeparator(d + "_" + base);
  }

  /** The shape of `timestamp + "_" + base` for a safe base. */
  lemma StampThenBase(now: nat, base: string)
    requires AllSafe(base)
    ensures var name := DecimalString(now) + "_" + base;
      && AllSafe(name) && '/' !in name
      && LeadingNumber(name) == now
  {
    var d := DecimalString(now);
    assert AllSafe(d);
    SafeJoin(d, base);
    StampReadsBack(now, base);
  }

  /** The integer cast of `timestamp + "_" + base` is the timestamp. */
  lemma StampReadsBack(now: nat, base: string)
    ensures LeadingNumber(DecimalString(now) + "_" + base) == now
  {
    var d := DecimalString(now);
    LeadingNumberOfRendered(now, "_" + base);
    assert d + "_" + base == d + ("_" + base);
  }

  /** `timestamp + "_" + sanitised base name` has the shape `StampedName` promises. */
  lemma StampedShape(now: nat, originalName: string)
    ensures var b := Sanitize(BaseName(originalName));
      var name := DecimalString(now) + "_" + b;
      && AllSafe(name) && '/' !in name
      && LeadingNumber(name) == now
      && |name| == |DecimalString(now)| + 1 + |b|
      && name[..|DecimalString(now)|] == DecimalString(now)
      && name[|name| - |b| - 1..] == "_" + b
      && ('/' !in originalName ==>
            |originalName| < |name| && name[|name| - |originalName|..] == Sanitize(originalName))
  {
    var b := Sanitize(BaseName(originalName));
    StampThenBase(now, b);
    JoinParts(DecimalString(now), b);
  }

  /** The name used without an alternate-name property: the timestamp, "_" and
      the sanitised base name of the upload. It is made of safe characters only,
      it starts with the rendered clock, which the integer cast reads back, and
      it ends in "_" and the sanitised base name. */
  function StampedName(now: nat, originalName: string): (name: string)
    ensures var b := Sanitize(BaseName(originalName));
      && AllSafe(name) && '/' !in name
      && LeadingNumber(name) == now
      && |name| == |DecimalString(now)| + 1 + |b|
      && name[..|DecimalString(now)|] == DecimalString(now)
      && name[|name| - |b| - 1..] == "_" + b
      && ('/' !in originalName ==>
            |originalName| < |name| && name[|name| - |originalName|..] == Sanitize(originalName))
  {
    StampedShape(now, originalName);
    DecimalString(now) + "_" + Sanitize(BaseName(originalName))
  }

  /** For an upload name without a directory part, the stamped name is exactly
      the rendered clock, "_" and the sanitised upload name. */
  lemma StampedNameOfPlainName(now: nat, original: string)
    requires '/' !in original
    ensures StampedName(now, original) == DecimalString(now) + "_" + Sanitize(original)
  {
    assert BaseName(original) == original;
  }

  /** The shape of `stem + "." + ext` for a safe stem. */
  lemma StemDotExtension(stem: string, ext: string)
    requires AllSafe(stem)
    ensures var name := stem + "." + ext;
      && |ext| < |name| && name[|name| - |ext| - 1..] == "." + ext
      && name[..|name| - |ext| - 1] == stem
      && ('/' !in ext ==> '/' !in name)
  {
    SafeHasNoSeparator(stem);
    var name := stem + "." + ext;
    assert name == stem + ("." + ext);
    if '/' !in ext {
      forall i | 0 <= i < |name| ensures name[i] != '/' {
        if i < |stem| { assert name[i] == stem[i]; }
        else if i > |stem| { assert name[i] == ext[i - |stem| - 1]; }
      }
    }
  }

  /** The name used with an alternate-name property whose value is `v`: its
      sanitised base name, ".", and the extension. Only the extension can bring
      in a character outside `[A-Za-z0-9._-]`. */
  function AltName(v: Value, ext: string): (name: string)
    ensures |ext| < |name| && name[|name| - |ext| - 1..] == "." + ext
    ensures AllSafe(name[..|name| - |ext| - 1])
    ensures name[..|name| - |ext| - 1] == Sanitize(BaseName(Show(v)))
    ensures '/' !in Show(v) ==> name[..|name| - |ext| - 1] == Sanitize(Show(v))
    ensures '/' !in ext ==> '/' !in name
  {
    var stem := Sanitize(BaseName(Show(v)));
    StemDotExtension(stem, ext);
    stem + "." + ext
  }

  /** An alternate-name property that is not declared reads as null, so the
      upload is stored under the bare extension, a name starting with ".". */
  lemma UndeclaredAltNameIsBareExtension(props: map<string, Value>, p: string, ext: string)
    requires p !in props
    ensures AltName(PropertyValue(props, p), ext) == "." + ext
  {
    var name := AltName(Null, ext);
    assert |Sanitize(Show(Null))| == 0;
    assert |name| - |ext| - 1 == 0;
    assert name == name[0..];
  }

  /** The stored name `uploadFiles` builds. Whichever rule applies, it never
      contains a directory separator when the extension does not, so the file
      lands directly in its extension directory. */
  function GeneratedName(altName: Option<string>, props: map<string, Value>, originalName: string,
                         ext: string, now: nat): (name: string)
    ensures '/' !in ext ==> '/' !in name
  {
    if altName.Some? then AltName(PropertyValue(props, altName.value), ext)
    else StampedName(now, originalName)
  }

  /** With an alternate-name property the name depends on neither the uploaded
      name nor the clock, so a repeated upload targets the same file. */
  lemma AltNameIgnoresUploadAndClock(alt: string, props: map<string, Value>, name1: string, name2: string,
                                     ext: string, now1: nat, now2: nat)
    ensures GeneratedName(Some(alt), props, name1, ext, now1) == GeneratedName(Some(alt), props, name2, ext, now2)
  {
  }

  /** Without one, uploads made in different seconds never share a name. */
  lemma TimestampNamesDiffer(props: map<string, Value>, name1: string, name2: string, ext: string, now1: nat, now2: nat)
    requires now1 != now2
    ensures GeneratedName(None, props, name1, ext, now1) != GeneratedName(None, props, name2, ext, now2)
  {
  }

  /** The space and the `!` of "my file!.pdf" become `_`. */
  lemma SanitizeSpacedName(original: string)
    requires original == "my file!.pdf"
    ensures Sanitize(original) == "my_file_.pdf"
  {
    var clean := Sanitize(original);
    assert clean[2] == '_' && clean[7] == '_';
  }

  /** An upload named with spaces or symbols is stored with `_` in their place:
      the space and the `!` of "my file!.pdf" become `_`, and without an
      alternate-name property the file is stored as `<time>_my_file_.pdf`. */
  lemma SanitizeSpaceAndBang(original: string, props: map<string, Value>, ext: string, now: nat)
    requires original == "my file!.pdf"
    ensures Sanitize(original) == "my_file_.pdf"
    ensures GeneratedName(None, props, original, ext, now) == DecimalString(now) + "_" + "my_file_.pdf"
  {
    SanitizeSpacedName(original);
    assert '/' !in original;
    StampedNameOfPlainName(now, original);
  }

  /** The rename of an uploaded temporary file onto its destination. */
  function Move(disk: Disk, from: string, to: string): (d: Disk)
    ensures d.dirs == disk.dirs
    ensures to in d.files
    ensures from != to ==> from !in d.files
    ensures d.files <= disk.files + {to}
    ensures forall f :: f != from && f != to ==> (f in d.files <==> f in disk.files)
  {
    disk.(files := disk.files - {from} + {to})
  }

  /** What `unlink($property)` reports and leaves behind. */
  datatype Unlinked = Unlinked(ok: bool, disk: Disk)

  /** `unlink` of a property's value: only a string naming an existing regular
      file is deleted, and only when the deletion succeeds (`ok`); anything else
      reports success without touching the disk. */
  function UnlinkValue(v: Value, disk: Disk, ok: bool): (r: Unlinked)
    ensures r.disk.dirs == disk.dirs
    ensures r.disk.files <= disk.files
    ensures !(v.Text? && v.s in disk.files) ==> r == Unlinked(true, disk)
    ensures v.Text? && v.s in disk.files ==> r.ok == ok && (v.s !in r.disk.files <==> ok)
    ensures forall f :: f in disk.files && !(v.Text? && f == v.s) ==> f in r.disk.files
  {
    if v.Text? && v.s in disk.files then
      Unlinked(ok, if ok then disk.(files := disk.files - {v.s}) else disk)
    else Unlinked(true, disk)
  }

  /** The commit of one upload as the code is written: move, then unlink the
      property's previous value. The new file survives unless the previous value
      is the destination itself and the unlink succeeds. */
  function PlaceAsWritten(disk: Disk, tmp: string, dest: string, previous: Value, unlinkOk: bool): (d: Disk)
    ensures d.dirs == disk.dirs
    ensures dest in d.files <==> !(previous == Text(dest) && unlinkOk)
    ensures tmp != dest ==> tmp !in d.files
    ensures previous.Text? && previous.s != tmp && previous.s in disk.files ==> (previous.s !in d.files <==> unlinkOk)
    // nothing is created but the destination
    ensures d.files <= disk.files + {dest}
    ensures forall f :: f != tmp && f != dest && !(previous.Text? && f == previous.s) ==>
              (f in d.files <==> f in disk.files)
  {
    UnlinkValue(previous, Move(disk, tmp, dest), unlinkOk).disk
  }

  /** When the previous value is the destination path itself (an alternate-name
      re-upload, or the same name within one second), the unlink that follows
      the move deletes the file just placed. */
  lemma ReuploadToSamePathLosesFile(disk: Disk, tmp: string, dest: string)
    ensures dest !in PlaceAsWritten(disk, tmp, dest, Text(dest), true).files
  {
  }

  /** A concrete instance: re-uploading `report.pdf` under the same alternate
      name leaves nothing on disk although the property names the file. */
  lemma ReuploadExample()
    ensures PlaceAsWritten(Disk({"/data/Doc/pdf/report.pdf", "/tmp/php1"}, {"/data/Doc/pdf"}),
                           "/tmp/php1", "/data/Doc/pdf/report.pdf", Text("/data/Doc/pdf/report.pdf"), true)
            == Disk({}, {"/data/Doc/pdf"})
  {
    var d := Disk({"/data/Doc/pdf/report.pdf", "/tmp/php1"}, {"/data/Doc/pdf"});
    assert Move(d, "/tmp/php1", "/data/Doc/pdf/report.pdf").files == {"/data/Doc/pdf/report.pdf"};
  }

  /** The commit as intended: the new file is in place afterwards, the superseded
      file is removed when it is a different one and can be deleted, and no other
      file is touched. The unlink is skipped when the old and new paths coincide. */
  function Place(disk: Disk, tmp: string, dest: string, previous: Value, unlinkOk: bool): (d: Disk)
    ensures d.dirs == disk.dirs
    ensures dest in d.files
    ensures tmp != dest ==> tmp !in d.files
    ensures previous.Text? && previous.s != dest && previous.s in disk.files && unlinkOk ==>
              previous.s !in d.files
    // a failed unlink keeps the superseded file
    ensures previous.Text? && previous.s != tmp && previous.s in disk.files && !unlinkOk ==>
              previous.s in d.files
    // nothing is created but the destination
    ensures d.files <= disk.files + {dest}
    ensures forall f :: f != tmp && f != dest && !(previous.Text? && f == previous.s) ==>
              (f in d.files <==> f in disk.files)
  {
    if previous == Text(dest) then Move(disk, tmp, dest)
    else PlaceAsWritten(disk, tmp, dest, previous, unlinkOk)
  }

  /** Which commit `uploadFiles` performs: the one the code has, or the
      corrected one that keeps a file re-uploaded onto its own path. */
  datatype Policy = AsWritten | Corrected

  /** The commit of one upload under a policy. The two agree whenever the
      previous value is not the destination path. */
  function Settle(policy: Policy, disk: Disk, tmp: string, dest: string, previous: Value, unlinkOk: bool): (d: Disk)
    ensures policy.AsWritten? ==> d == PlaceAsWritten(disk, tmp, dest, previous, unlinkOk)
    ensures policy.Corrected? || previous != Text(dest) ==> d == Place(disk, tmp, dest, previous, unlinkOk)
    // what both commits share, and where they differ
    ensures d.dirs == disk.dirs
    ensures dest in d.files <==> !(policy.AsWritten? && previous == Text(dest) && unlinkOk)
    ensures tmp != dest ==> tmp !in d.files
    ensures previous.Text? && previous.s != dest && previous.s != tmp && previous.s in disk.files ==>
              (previous.s !in d.files <==> unlinkOk)
    ensures d.files <= disk.files + {dest}
    ensures forall f :: f != tmp && f != dest && !(previous.Text? && f == previous.s) ==>
              (f in d.files <==> f in disk.files)
  {
    match policy
    case AsWritten => PlaceAsWritten(disk, tmp, dest, previous, unlinkOk)
    case Corrected => Place(disk, tmp, dest, previous, unlinkOk)
  }
}
