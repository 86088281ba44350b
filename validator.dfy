/**
 * The validator: `extensionIsOk` (allow-list first, deny-list second) and
 * `fileIsOk` (transport status, size, then the extension, with the
 * entity's `mime` written in between).
 */
module Validator {
  import opened Outcomes
  import opened Strings
  import opened SizePolicy
  import opened Registry

  /** PHP's `UPLOAD_ERR_OK`. */
  const UPLOAD_ERR_OK: int := 0

  /** The upload descriptor the transport delivers for one property. */
  datatype Descriptor = Descriptor(name: string, tmpName: string, size: int, mimeType: string, error: int)

  /** `extensionIsOk`: the lower-cased extension when it passes both lists, `None` (false) otherwise. */
  function ExtensionVerdict(rules: Rules, property: string, extension: string): (r: Option<string>)
    ensures r.Some? <==>
              (property !in rules.allow || Lower(extension) in rules.allow[property]) &&
              !(property in rules.deny && Lower(extension) in rules.deny[property])
    ensures r.Some? ==> r.value == Lower(extension)
  {
    var e := Lower(extension);
    if property in rules.allow && e !in rules.allow[property] then None
    else if property in rules.deny && e in rules.deny[property] then None
    else Some(e)
  }

  /** A deny-list hit rejects even an extension the allow-list names. */
  lemma DenyWinsOverAllow(rules: Rules, property: string, extension: string)
    requires property in rules.allow && Lower(extension) in rules.allow[property]
    requires property in rules.deny && Lower(extension) in rules.deny[property]
    ensures ExtensionVerdict(rules, property, extension) == None
  {
  }

  /** Extensions are compared without regard to case. */
  lemma VerdictIgnoresCase(rules: Rules, property: string, x: string, y: string)
    requires Lower(x) == Lower(y)
    ensures ExtensionVerdict(rules, property, x) == ExtensionVerdict(rules, property, y)
  {
  }

  /** An allow-list that exists but is empty rejects every extension. */
  lemma EmptyAllowListRejectsAll(rules: Rules, property: string, extension: string)
    requires property in rules.allow && rules.allow[property] == []
    ensures ExtensionVerdict(rules, property, extension) == None
  {
  }

  /** The registered lists are not lower-cased, so an entry with an upper-case
      letter never matches: adding it to an allow-list changes no verdict. */
  lemma UpperCaseEntryNeverAdmits(rules: Rules, property: string, entry: string, i: nat, extension: string)
    requires property in rules.allow
    requires i < |entry| && IsUpper(entry[i])
    ensures ExtensionVerdict(rules.(allow := Append(rules.allow, property, entry)), property, extension)
         == ExtensionVerdict(rules, property, extension)
  {
    assert Lower(extension) != entry by {
      if |Lower(extension)| == |entry| {
        assert !IsUpper(Lower(extension)[i]);
      }
    }
  }

  /** `addExtension` with a lower-case extension that is not denied lets that
      extension through, whatever case the uploaded name uses. */
  lemma AddedExtensionIsAdmitted(rules: Rules, property: string, ext: string, uploaded: string)
    requires Lower(uploaded) == ext
    requires !(property in rules.deny && ext in rules.deny[property])
    ensures ExtensionVerdict(rules.(allow := Append(rules.allow, property, ext)), property, uploaded) == Some(ext)
  {
  }

  /** What `fileIsOk` returns and leaves behind in the two fields it touches. */
  datatype Check = Check(verdict: Result<Option<string>>, maxSize: RawSize, mime: Option<string>)

  /** `fileIsOk`: a transport error rejects before anything is read; the size
      check resolves and caches the limit (and raises on a bad limit type); an
      oversize file is rejected; otherwise `mime` takes the declared type and the
      extension of the base name decides. */
  function CheckFile(rules: Rules, maxSize: RawSize, mime: Option<string>, property: string,
                     info: Descriptor, iniDefault: string): (c: Check)
    ensures info.error != UPLOAD_ERR_OK ==> c == Check(Ok(None), maxSize, mime)
    ensures info.error == UPLOAD_ERR_OK ==> c.maxSize == ResolveMax(maxSize, iniDefault)
    ensures c.mime != mime ==> c.mime == Some(info.mimeType)
    ensures c.verdict.Thrown? ==> c.verdict.error == InvalidSizeType && c.mime == mime
    ensures info.error == UPLOAD_ERR_OK && SizeAdmits(info.size, ParseSize(c.maxSize)).Thrown? ==>
              c.verdict == Thrown(InvalidSizeType) && c.mime == mime
    ensures info.error == UPLOAD_ERR_OK && SizeAdmits(info.size, ParseSize(c.maxSize)) == Ok(false) ==>
              c.verdict == Ok(None) && c.mime == mime
    ensures info.error == UPLOAD_ERR_OK && SizeAdmits(info.size, ParseSize(c.maxSize)) == Ok(true) ==>
              c.mime == Some(info.mimeType) &&
              c.verdict == Ok(ExtensionVerdict(rules, property, ExtensionOf(BaseName(info.name))))
    ensures c.verdict.Ok? && c.verdict.value.Some? ==>
              info.error == UPLOAD_ERR_OK && c.mime == Some(info.mimeType) &&
              c.verdict.value.value == Lower(ExtensionOf(BaseName(info.name)))
  {
    if info.error != UPLOAD_ERR_OK then Check(Ok(None), maxSize, mime)
    else
      var resolved := ResolveMax(maxSize, iniDefault);
      match SizeAdmits(info.size, ParseSize(resolved))
      case Thrown(e) => Check(Thrown(e), resolved, mime)
      case Ok(fits) =>
        if !fits then Check(Ok(None), resolved, mime)
        else Check(Ok(ExtensionVerdict(rules, property, ExtensionOf(BaseName(info.name)))), resolved, Some(info.mimeType))
  }

  /** The declared media type is recorded even when the extension is then refused. */
  lemma MimeRecordedBeforeExtensionCheck(rules: Rules, maxSize: RawSize, mime: Option<string>,
                                         property: string, info: Descriptor, iniDefault: string)
    requires info.error == UPLOAD_ERR_OK
    requires SizeAdmits(info.size, ParseSize(ResolveMax(maxSize, iniDefault))) == Ok(true)
    requires ExtensionVerdict(rules, property, ExtensionOf(BaseName(info.name))) == None
    ensures CheckFile(rules, maxSize, mime, property, info, iniDefault) ==
            Check(Ok(None), ResolveMax(maxSize, iniDefault), Some(info.mimeType))
  {
  }

  /** A file exactly as large as a numeric limit passes the size check. */
  lemma SizeAtLimitReachesExtensionCheck(rules: Rules, mime: Option<string>, property: string,
                                         info: Descriptor, iniDefault: string)
    requires info.error == UPLOAD_ERR_OK
    ensures CheckFile(rules, IntSize(info.size), mime, property, info, iniDefault).verdict ==
            Ok(ExtensionVerdict(rules, property, ExtensionOf(BaseName(info.name))))
  {
  }
}
