/** `zip_comparison`: compare two archives entry by entry.  An archive is
    abstracted to what the comparison observes of it: its size on disk,
    whether it is a zip file at all, whether it is encrypted and with which
    password, and its members by name.  The content hash (xxh64) is a
    parameter: any deterministic function from bytes to a 64-bit digest. */
module ZipCompare {
  import opened Results
  import opened PathExt
  import opened SizeFormat

  type Byte = bv8

  /** An xxh64 digest. */
  type Digest = bv64

  /** One member of an archive: the uncompressed size its header records,
      the bytes reading it yields, and the checksum error the archive
      library raises when a read reaches the end of the member and its
      CRC-32 does not match, if it does not. */
  datatype Entry = Entry(fileSize: nat, content: seq<Byte>, fault: Option<string>)

  /** An archive file as the comparison sees it: its size on disk, whether
      it is a zip file, whether its members are encrypted and with which
      password, and its members by name. */
  datatype Archive = Archive(
    byteSize: nat,
    valid: bool,
    encrypted: bool,
    password: string,
    entries: map<string, Entry>)

  datatype Side = First | Second

  /** The errors `zip_comparison` raises. */
  datatype Failure =
    | SizeLimitExceeded
    | InvalidArchive
    | MissingPassword(side: Side)
    | IncorrectPassword
    | ReadError(detail: string)

  const MaxSizeMB: nat := 50

  /** An archive may take up at most 50 MiB on disk. */
  const MaxBytes: nat := MaxSizeMB * 1024 * 1024

  /** MaxSizeMB as the error message spells it. */
  const MaxSizeText: string := "50"

  lemma MaxSizeTextIsDecimal()
    ensures MaxSizeText == Decimal(MaxSizeMB)
  {
    assert Decimal(5) == "5";
  }

  const ErrorPrefix: string := "Error during zip comparison: "

  /** The text of the exception that ends the comparison early: a fixed
      text for each failure the comparison raises itself, and the library's
      own text for a read error. */
  function Reason(f: Failure): (text: string)
    ensures f.ReadError? ==> text == f.detail
  {
    match f
    case SizeLimitExceeded => "One or both ZIP files exceeds " + MaxSizeText + "MB limit"
    case InvalidArchive => "One or both files are not a valid zip file"
    case MissingPassword(First) => "First zip file is password-protected but no password was provided"
    case MissingPassword(Second) => "Second zip file is password-protected but no password was provided"
    case IncorrectPassword => "Incorrect password provided for one of the zip files"
    case ReadError(detail) => detail
  }

  /** The text of the ValueError that leaves `zip_comparison`: every error,
      whatever raised it, is re-wrapped with the same prefix, and a read
      error keeps its own text after it. */
  function Message(f: Failure): (m: string)
    ensures ErrorPrefix <= m
    ensures f.ReadError? ==> m == ErrorPrefix + f.detail
  {
    ErrorPrefix + Reason(f)
  }

  /** One row of the result: where the name occurs, the formatted sizes,
      and whether the two copies hashed alike. */
  datatype Comparison = Comparison(
    inZip1: bool,
    inZip2: bool,
    identical: bool,
    size1: Option<string>,
    size2: Option<string>)

  /** Python truthiness of an optional password: None and "" are false. */
  predicate Truthy(password: Option<string>) {
    password.Some? && password.value != ""
  }

  /** The `pwd` the entries are opened with: the password when it is
      truthy, otherwise none. */
  function OpenKey(password: Option<string>): (key: Option<string>)
    ensures key.Some? <==> Truthy(password)
    ensures key.Some? ==> key == password
  {
    if Truthy(password) then password else None
  }

  /** `is_zip_encrypted`: whether the integrity test, which opens the
      members without a password, fails for want of one. */
  function IsZipEncrypted(a: Archive): (encrypted: bool)
    ensures encrypted <==> !Opens(a, None)
  {
    a.encrypted
  }

  /** Whether opening a member with `key` passes the password check. */
  predicate Opens(a: Archive, key: Option<string>) {
    !a.encrypted || key == Some(a.password)
  }

  /** The checks made before any member is looked at, in the source's
      order: size then zip format of the first archive, the same for the
      second, then a password for each encrypted archive. */
  function Precheck(a1: Archive, a2: Archive, password1: Option<string>, password2: Option<string>)
    : (r: Option<Failure>)
    ensures r == None <==>
      && a1.byteSize <= MaxBytes && a1.valid
      && a2.byteSize <= MaxBytes && a2.valid
      && (a1.encrypted ==> Truthy(password1))
      && (a2.encrypted ==> Truthy(password2))
    ensures a1.byteSize > MaxBytes ==> r == Some(SizeLimitExceeded)
    ensures a1.byteSize <= MaxBytes && !a1.valid ==> r == Some(InvalidArchive)
    ensures a1.byteSize <= MaxBytes && a1.valid && a2.byteSize > MaxBytes ==> r == Some(SizeLimitExceeded)
    ensures a1.byteSize <= MaxBytes && a1.valid && a2.byteSize <= MaxBytes && !a2.valid ==> r == Some(InvalidArchive)
    ensures a1.byteSize <= MaxBytes && a1.valid && a2.byteSize <= MaxBytes && a2.valid ==>
              (a1.encrypted && !Truthy(password1) ==> r == Some(MissingPassword(First))) &&
              (!(a1.encrypted && !Truthy(password1)) && a2.encrypted && !Truthy(password2) ==>
                 r == Some(MissingPassword(Second)))
    ensures r == Some(SizeLimitExceeded) ==> a1.byteSize > MaxBytes || a2.byteSize > MaxBytes
    ensures r == Some(InvalidArchive) ==> !a1.valid || !a2.valid
    ensures r.Some? && r.value.MissingPassword? ==>
      a1.byteSize <= MaxBytes && a1.valid && a2.byteSize <= MaxBytes && a2.valid
    ensures r == Some(MissingPassword(First)) <==>
      r.Some? && r.value.MissingPassword? && a1.encrypted && !Truthy(password1)
    ensures r.Some? ==> !r.value.IncorrectPassword? && !r.value.ReadError?
  {
    if a1.byteSize > MaxBytes then Some(SizeLimitExceeded)
    else if !a1.valid then Some(InvalidArchive)
    else if a2.byteSize > MaxBytes then Some(SizeLimitExceeded)
    else if !a2.valid then Some(InvalidArchive)
    else if IsZipEncrypted(a1) && !Truthy(password1) then Some(MissingPassword(First))
    else if IsZipEncrypted(a2) && !Truthy(password2) then Some(MissingPassword(Second))
    else None
  }

  /** Whether the comparison opens and reads a name's two copies: only when
      it is in both archives with equal recorded sizes. */
  predicate ReadsContent(a1: Archive, a2: Archive, name: string) {
    && name in a1.entries && name in a2.entries
    && a1.entries[name].fileSize == a2.entries[name].fileSize
  }

  /** The formatted recorded size of a name in one archive, none when the
      archive does not hold it. */
  function SizeOf(a: Archive, name: string): (size: Option<string>)
    ensures size.Some? <==> name in a.entries
    ensures size.Some? ==> size.value == FormatSize(a.entries[name].fileSize)
  {
    if name in a.entries then Some(FormatSize(a.entries[name].fileSize)) else None
  }

  /** The record for one name, or the error reading it raises.  Opening the
      first copy, opening the second, reading the first and reading the
      second happen in that order, so the first of them to fail decides the
      error. */
  function CompareEntry(a1: Archive, a2: Archive, key1: Option<string>, key2: Option<string>,
                        hash: seq<Byte> -> Digest, name: string)
    : (r: Result<Comparison, Failure>)
    ensures r.Success? ==> r.value.inZip1 == (name in a1.entries) && r.value.inZip2 == (name in a2.entries)
    ensures r.Success? ==> (r.value.size1.Some? <==> name in a1.entries) && (r.value.size2.Some? <==> name in a2.entries)
    ensures r.Success? ==> r.value.size1 == SizeOf(a1, name) && r.value.size2 == SizeOf(a2, name)
    ensures r.Success? && r.value.identical ==> ReadsContent(a1, a2, name)
    ensures !ReadsContent(a1, a2, name) ==> r.Success?
    ensures r == Failure(IncorrectPassword) <==> ReadsContent(a1, a2, name) && !(Opens(a1, key1) && Opens(a2, key2))
    ensures r.Failure? ==> r.error == IncorrectPassword || r.error.ReadError?
    ensures ReadsContent(a1, a2, name) && Opens(a1, key1) && Opens(a2, key2)
            && a1.entries[name].fault.Some? ==>
              r == Failure(ReadError(a1.entries[name].fault.value))
    ensures ReadsContent(a1, a2, name) && Opens(a1, key1) && Opens(a2, key2)
            && a1.entries[name].fault.None? && a2.entries[name].fault.Some? ==>
              r == Failure(ReadError(a2.entries[name].fault.value))
    ensures ReadsContent(a1, a2, name) && Opens(a1, key1) && Opens(a2, key2)
            && a1.entries[name].fault.None? && a2.entries[name].fault.None? ==>
              r.Success? && (r.value.identical <==> hash(a1.entries[name].content) == hash(a2.entries[name].content))
  {
    var comparison := Comparison(name in a1.entries, name in a2.entries, false, SizeOf(a1, name), SizeOf(a2, name));
    if !ReadsContent(a1, a2, name) then Success(comparison)
    else if !Opens(a1, key1) || !Opens(a2, key2) then Failure(IncorrectPassword)
    else if a1.entries[name].fault.Some? then Failure(ReadError(a1.entries[name].fault.value))
    else if a2.entries[name].fault.Some? then Failure(ReadError(a2.entries[name].fault.value))
    else Success(comparison.(identical := hash(a1.entries[name].content) == hash(a2.entries[name].content)))
  }

  /** `set(exclude_list)`. */
  function ExcludeSet(excludeList: seq<string>): (excluded: set<string>)
    ensures forall i :: 0 <= i < |excludeList| ==> excludeList[i] in excluded
    ensures forall item :: item in excluded ==> item in excludeList
  {
    set item | item in excludeList
  }

  /** The names that get a record: those of either archive whose extension
      key is not excluded. */
  function Retained(a1: Archive, a2: Archive, excluded: set<string>): (names: set<string>)
    ensures names <= a1.entries.Keys + a2.entries.Keys
  {
    set name | name in a1.entries.Keys + a2.entries.Keys && ExtensionKey(name) !in excluded
  }

  /** Whether no retained name fails while being compared. */
  predicate NoEntryFails(a1: Archive, a2: Archive, key1: Option<string>, key2: Option<string>,
                         hash: seq<Byte> -> Digest, excluded: set<string>)
  {
    forall name :: name in Retained(a1, a2, excluded) ==> CompareEntry(a1, a2, key1, key2, hash, name).Success?
  }

  /** What a successful pass returns: a record for exactly the retained
      names, each the one CompareEntry gives that name. */
  predicate Filled(a1: Archive, a2: Archive, key1: Option<string>, key2: Option<string>,
                   hash: seq<Byte> -> Digest, excluded: set<string>, m: map<string, Comparison>)
  {
    && m.Keys == Retained(a1, a2, excluded)
    && forall name :: name in m ==> CompareEntry(a1, a2, key1, key2, hash, name) == Success(m[name])
  }

  /** A filled map exists only when no retained name fails. */
  lemma FilledMeansNoFailure(a1: Archive, a2: Archive, key1: Option<string>, key2: Option<string>,
                             hash: seq<Byte> -> Digest, excluded: set<string>, m: map<string, Comparison>)
    requires Filled(a1, a2, key1, key2, hash, excluded, m)
    ensures NoEntryFails(a1, a2, key1, key2, hash, excluded)
  {
    forall name | name in Retained(a1, a2, excluded)
      ensures CompareEntry(a1, a2, key1, key2, hash, name).Success?
    {
      assert name in m;
    }
  }

  /** There is only one filled map: the result of a successful pass does
      not depend on the order the names are visited in. */
  lemma FilledIsUnique(a1: Archive, a2: Archive, key1: Option<string>, key2: Option<string>,
                       hash: seq<Byte> -> Digest, excluded: set<string>, m1: map<string, Comparison>,
                       m2: map<string, Comparison>)
    requires Filled(a1, a2, key1, key2, hash, excluded, m1)
    requires Filled(a1, a2, key1, key2, hash, excluded, m2)
    ensures m1 == m2
  {
    assert m1.Keys == m2.Keys;
    forall name | name in m1 ensures m1[name] == m2[name] {
      assert CompareEntry(a1, a2, key1, key2, hash, name) == Success(m2[name]);
    }
  }

  /** One retained name that fails is a witness against NoEntryFails. */
  lemma FailingEntry(a1: Archive, a2: Archive, key1: Option<string>, key2: Option<string>,
                     hash: seq<Byte> -> Digest, excluded: set<string>, name: string, error: Failure)
    requires name in Retained(a1, a2, excluded)
    requires CompareEntry(a1, a2, key1, key2, hash, name) == Failure(error)
    ensures !NoEntryFails(a1, a2, key1, key2, hash, excluded)
    ensures exists n :: n in Retained(a1, a2, excluded) && CompareEntry(a1, a2, key1, key2, hash, n) == Failure(error)
  {
  }

  /** Equal contents hash alike: a name in both archives with equal sizes
      and equal bytes, read without error, is reported identical. */
  lemma EqualContentsIdentical(a1: Archive, a2: Archive, key1: Option<string>, key2: Option<string>,
                               hash: seq<Byte> -> Digest, name: string)
    requires ReadsContent(a1, a2, name) && Opens(a1, key1) && Opens(a2, key2)
    requires a1.entries[name].fault.None? && a2.entries[name].fault.None?
    requires a1.entries[name].content == a2.entries[name].content
    ensures CompareEntry(a1, a2, key1, key2, hash, name).Success?
    ensures CompareEntry(a1, a2, key1, key2, hash, name).value.identical
  {
  }

  /** A name held by one archive only, or with differing recorded sizes,
      is never read, so it is reported not identical and never fails,
      whatever the passwords. */
  lemma UnreadNeverFails(a1: Archive, a2: Archive, key1: Option<string>, key2: Option<string>,
                         hash: seq<Byte> -> Digest, name: string)
    requires name in a1.entries.Keys + a2.entries.Keys
    requires !ReadsContent(a1, a2, name)
    ensures CompareEntry(a1, a2, key1, key2, hash, name)
            == Success(Comparison(name in a1.entries, name in a2.entries, false, SizeOf(a1, name), SizeOf(a2, name)))
  {
  }

  /** Exclusion items are not lower-cased, so adding one that holds an
      upper-case letter (".TXT") leaves the retained names unchanged. */
  lemma UpperCaseItemIgnored(a1: Archive, a2: Archive, excluded: set<string>, item: string)
    requires exists i :: 0 <= i < |item| && IsUpper(item[i])
    ensures Retained(a1, a2, excluded + {item}) == Retained(a1, a2, excluded)
  {
    forall name | name in a1.entries.Keys + a2.entries.Keys
      ensures ExtensionKey(name) != item
    {
      UpperCaseItemNeverMatches(item, name);
    }
  }

  /** Which names get a record: without exclusions every name of either
      archive does; excluding "." drops exactly the names without an
      extension, and a name is kept or dropped whichever archive holds it. */
  lemma RetainedNames(a1: Archive, a2: Archive, excluded: set<string>)
    ensures excluded == {} ==> Retained(a1, a2, excluded) == a1.entries.Keys + a2.entries.Keys
    ensures "." in excluded ==>
              forall name :: name in Retained(a1, a2, excluded) ==> GetFileExtension(name) != ""
    ensures forall name :: name in a1.entries.Keys + a2.entries.Keys && ExtensionKey(name) in excluded ==>
              name !in Retained(a1, a2, excluded)
  {
    forall name | name in Retained(a1, a2, excluded) && "." in excluded
      ensures GetFileExtension(name) != ""
    {
      ExtensionKeyShape(name);
    }
  }

  /** The record for one name that is not excluded (the body of the loop
      in `zip_comparison`): built field by field, with the two copies
      opened, read and hashed only when they have equal recorded sizes. */
  method CompareFile(a1: Archive, a2: Archive, key1: Option<string>, key2: Option<string>,
                     hash: seq<Byte> -> Digest, file: string)
    returns (r: Result<Comparison, Failure>)
    ensures r == CompareEntry(a1, a2, key1, key2, hash, file)
  {
    var comparison := Comparison(file in a1.entries, file in a2.entries, false, None, None);
    if comparison.inZip1 {
      var size1 := FormatFileSize(a1.entries[file].fileSize);
      comparison := comparison.(size1 := Some(size1));
    }
    if comparison.inZip2 {
      var size2 := FormatFileSize(a2.entries[file].fileSize);
      comparison := comparison.(size2 := Some(size2));
    }
    if comparison.inZip1 && comparison.inZip2 {
      if a1.entries[file].fileSize == a2.entries[file].fileSize {
        if !Opens(a1, key1) || !Opens(a2, key2) {
          return Failure(IncorrectPassword);
        }
        var f1 := a1.entries[file];
        var f2 := a2.entries[file];
        if f1.fault.Some? {
          return Failure(ReadError(f1.fault.value));
        }
        if f2.fault.Some? {
          return Failure(ReadError(f2.fault.value));
        }
        var hash1 := hash(f1.content);
        var hash2 := hash(f2.content);
        comparison := comparison.(identical := hash1 == hash2);
      }
    }
    return Success(comparison);
  }

  /** The pass over the union of the two name sets (the inner `try` block
      of `zip_comparison`), in any order, filling the result map; the first
      error aborts the pass and no partial result is returned. */
  method CompareEntries(a1: Archive, a2: Archive, key1: Option<string>, key2: Option<string>,
                        excludeList: seq<string>, hash: seq<Byte> -> Digest)
    returns (r: Result<map<string, Comparison>, Failure>)
    ensures r.Success? <==> NoEntryFails(a1, a2, key1, key2, hash, ExcludeSet(excludeList))
    ensures r.Success? ==> Filled(a1, a2, key1, key2, hash, ExcludeSet(excludeList), r.value)
    ensures r.Failure? ==>
              exists name :: name in Retained(a1, a2, ExcludeSet(excludeList)) &&
                CompareEntry(a1, a2, key1, key2, hash, name) == Failure(r.error)
  {
    var files1 := a1.entries.Keys;
    var files2 := a2.entries.Keys;
    var excludeSet := ExcludeSet(excludeList);
    ghost var retained := Retained(a1, a2, excludeSet);

    var fileComparison: map<string, Comparison> := map[];
    var remaining := files1 + files2;
    while remaining != {}
      invariant remaining <= files1 + files2
      invariant forall name :: name in fileComparison ==> name in retained && name !in remaining
      invariant forall name :: name in retained && name !in remaining ==> name in fileComparison
      invariant forall name :: name in fileComparison ==>
                  CompareEntry(a1, a2, key1, key2, hash, name) == Success(fileComparison[name])
      decreases remaining
    {
      var file :| file in remaining;
      remaining := remaining - {file};
      var fileExtension := ExtensionKey(file);
      if fileExtension in excludeSet {
        continue;
      }
      assert file in retained;
      var comparison := CompareFile(a1, a2, key1, key2, hash, file);
      if comparison.Failure? {
        FailingEntry(a1, a2, key1, key2, hash, excludeSet, file, comparison.error);
        return Failure(comparison.error);
      }
      fileComparison := fileComparison[file := comparison.value];
    }
    assert fileComparison.Keys == retained;
    FilledMeansNoFailure(a1, a2, key1, key2, hash, excludeSet, fileComparison);
    return Success(fileComparison);
  }

  /** `zip_comparison`: the prechecks in order, then the pass over the
      names with each archive's password, when truthy, as its key. */
  method ZipComparison(a1: Archive, a2: Archive, password1: Option<string>, password2: Option<string>,
                       excludeList: seq<string>, hash: seq<Byte> -> Digest)
    returns (r: Result<map<string, Comparison>, Failure>)
    ensures Precheck(a1, a2, password1, password2).Some? ==>
              r == Failure(Precheck(a1, a2, password1, password2).value)
    ensures Precheck(a1, a2, password1, password2).None? ==>
              (r.Success? <==> NoEntryFails(a1, a2, OpenKey(password1), OpenKey(password2), hash, ExcludeSet(excludeList)))
    ensures r.Success? ==>
              && NoEntryFails(a1, a2, OpenKey(password1), OpenKey(password2), hash, ExcludeSet(excludeList))
              && Filled(a1, a2, OpenKey(password1), OpenKey(password2), hash, ExcludeSet(excludeList), r.value)
    ensures r.Failure? && Precheck(a1, a2, password1, password2).None? ==>
              exists name :: name in Retained(a1, a2, ExcludeSet(excludeList)) &&
                CompareEntry(a1, a2, OpenKey(password1), OpenKey(password2), hash, name) == Failure(r.error)
  {
    var archives := [a1, a2];
    for i := 0 to 2
      invariant forall j :: 0 <= j < i ==> archives[j].byteSize <= MaxBytes && archives[j].valid
    {
      if archives[i].byteSize > MaxBytes {
        assert i == 1 ==> archives[0] == a1;
        return Failure(SizeLimitExceeded);
      }
      if !archives[i].valid {
        assert i == 1 ==> archives[0] == a1;
        return Failure(InvalidArchive);
      }
    }
    assert archives[0] == a1 && archives[1] == a2;
    if IsZipEncrypted(a1) && !Truthy(password1) {
      return Failure(MissingPassword(First));
    }
    if IsZipEncrypted(a2) && !Truthy(password2) {
      return Failure(MissingPassword(Second));
    }
    r := CompareEntries(a1, a2, OpenKey(password1), OpenKey(password2), excludeList, hash);
  }
}
