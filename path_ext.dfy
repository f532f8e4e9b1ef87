/** File-name extensions as `get_file_extension` computes them: POSIX
    `os.path.splitext`, drop the dot, and the lower-cased key `'.' + ext`
    that the comparison looks up in the exclusion set. */
module PathExt {

  /** Python's `str.rfind` for one character: the last index of `c` in `s`,
      or -1 when `c` does not occur. */
  function RFind(s: string, c: char): (r: int)
    ensures -1 <= r < |s|
    ensures r >= 0 ==> s[r] == c
    ensures forall j :: r < j < |s| ==> s[j] != c
  {
    if |s| == 0 then -1
    else if s[|s| - 1] == c then |s| - 1
    else RFind(s[..|s| - 1], c)
  }

  /** The three properties of RFind's contract determine it. */
  lemma RFindUnique(s: string, c: char, r: int)
    requires -1 <= r < |s|
    requires r >= 0 ==> s[r] == c
    requires forall j :: r < j < |s| ==> s[j] != c
    ensures RFind(s, c) == r
  {
  }

  /** POSIX `os.path.splitext`: the extension starts at the last '.' of the
      last path component, provided that component has a character other
      than '.' before it (leading dots do not start an extension). */
  function SplitExt(p: string): (r: (string, string))
    ensures r.0 + r.1 == p
    ensures r.1 == "" || (r.1[0] == '.' && forall i :: 1 <= i < |r.1| ==> r.1[i] != '.' && r.1[i] != '/')
  {
    var sep := RFind(p, '/');
    var dot := RFind(p, '.');
    if dot > sep && exists k | sep < k < dot :: p[k] != '.' then
      (p[..dot], p[dot..])
    else
      (p, "")
  }

  /** Searching `dir + "/" + base` from the end finds an occurrence in
      base first, shifted past the directory part. */
  lemma RFindAfterSlash(dir: string, base: string, c: char)
    ensures var p := dir + "/" + base;
            (RFind(base, c) >= 0 ==> RFind(p, c) == |dir| + 1 + RFind(base, c)) &&
            (RFind(base, c) < 0 ==> RFind(p, c) <= |dir|)
  {
    var p := dir + "/" + base;
    var n := |dir|;
    forall j | n < j < |p| ensures p[j] == base[j - n - 1] {
    }
    var d := RFind(base, c);
    if d >= 0 {
      RFindUnique(p, c, n + 1 + d);
    }
  }

  /** Only the text after the last '/' decides the extension. */
  lemma BasenameOnly(dir: string, base: string)
    requires '/' !in base
    ensures SplitExt(dir + "/" + base).1 == SplitExt(base).1
  {
    var p := dir + "/" + base;
    var n := |dir|;
    assert p[n] == '/';
    RFindAfterSlash(dir, base, '/');
    RFindUnique(base, '/', -1);
    RFindAfterSlash(dir, base, '.');
    var d := RFind(base, '.');
    if d >= 0 {
      var inP := exists k | n < k < n + 1 + d :: p[k] != '.';
      var inBase := exists k | -1 < k < d :: base[k] != '.';
      if inP {
        var k :| n < k < n + 1 + d && p[k] != '.';
        assert base[k - n - 1] == p[k];
      }
      if inBase {
        var k :| -1 < k < d && base[k] != '.';
        assert p[k + n + 1] == base[k];
      }
      assert inP == inBase;
      if inP {
        assert p[n + 1 + d..] == base[d..];
      }
    }
  }

  /** A last component made of leading dots followed by a dot-free name
      (".env", "..profile") has no extension. */
  lemma LeadingDotsSkipped(dots: string, name: string)
    requires |dots| >= 1 && forall i :: 0 <= i < |dots| ==> dots[i] == '.'
    requires '.' !in name && '/' !in name
    ensures SplitExt(dots + name) == (dots + name, "")
  {
    var p := dots + name;
    forall j | 0 <= j < |p| ensures p[j] != '/' {
      if j < |dots| { assert p[j] == dots[j]; } else { assert p[j] == name[j - |dots|]; }
    }
    RFindUnique(p, '/', -1);
    assert p[|dots| - 1] == '.';
    forall j | |dots| - 1 < j < |p| ensures p[j] != '.' {
      assert p[j] == name[j - |dots|];
    }
    RFindUnique(p, '.', |dots| - 1);
    forall k | -1 < k < |dots| - 1 ensures p[k] == '.' {
      assert p[k] == dots[k];
    }
  }

  /** In a slash-free `stem.ext` whose stem is not only dots, the extension
      is ".ext". */
  lemma SimpleExtension(stem: string, ext: string)
    requires '/' !in stem && exists i :: 0 <= i < |stem| && stem[i] != '.'
    requires '.' !in ext && '/' !in ext
    ensures SplitExt(stem + "." + ext) == (stem, "." + ext)
  {
    var p := stem + "." + ext;
    var n := |stem|;
    forall j | 0 <= j < |p| ensures p[j] != '/' {
      if j < n { assert p[j] == stem[j]; } else if j > n { assert p[j] == ext[j - n - 1]; }
    }
    RFindUnique(p, '/', -1);
    assert p[n] == '.';
    forall j | n < j < |p| ensures p[j] != '.' {
      assert p[j] == ext[j - n - 1];
    }
    RFindUnique(p, '.', n);
    var i :| 0 <= i < n && stem[i] != '.';
    assert p[i] == stem[i];
    assert p[..n] == stem;
    assert p[n..] == "." + ext;
  }

  /** `get_file_extension`: the splitext extension without its dot. */
  function GetFileExtension(file: string): (ext: string)
    ensures '.' !in ext && '/' !in ext
    ensures ext != "" ==> file == SplitExt(file).0 + "." + ext
    ensures ext == "" <==> SplitExt(file).1 == "" || SplitExt(file).1 == "."
  {
    var e := SplitExt(file).1;
    if e == "" then "" else e[1..]
  }

  predicate IsUpper(c: char) {
    'A' <= c <= 'Z'
  }

  /** `str.lower` on the ASCII letters. */
  function LowerChar(c: char): (r: char)
    ensures !IsUpper(r)
    ensures IsUpper(c) ==> r as int == c as int + 32
    ensures !IsUpper(c) ==> r == c
  {
    if IsUpper(c) then (c as int + 32) as char else c
  }

  function Lower(s: string): (r: string)
    ensures |r| == |s|
    ensures forall i :: 0 <= i < |r| ==> r[i] == LowerChar(s[i])
  {
    seq(|s|, i requires 0 <= i < |s| => LowerChar(s[i]))
  }

  /** The key looked up in the exclusion set: '.' followed by the lower-cased
      extension, so a name with no extension has the key ".". */
  function ExtensionKey(file: string): (key: string)
    ensures |key| >= 1 && key[0] == '.'
  {
    "." + Lower(GetFileExtension(file))
  }

  /** '.' followed by a lower-cased extension holds no upper-case letter,
      no '.' or '/' after the leading dot, and is "." alone exactly when
      the extension is empty. */
  lemma DotLowerShape(ext: string)
    requires '.' !in ext && '/' !in ext
    ensures var key := "." + Lower(ext);
            && (forall i :: 0 <= i < |key| ==> !IsUpper(key[i]))
            && (forall i :: 1 <= i < |key| ==> key[i] != '.' && key[i] != '/')
            && (key == "." <==> ext == "")
  {
    var lower := Lower(ext);
    var key := "." + lower;
    forall i | 1 <= i < |key| ensures key[i] == LowerChar(ext[i - 1]) {
      assert key[i] == lower[i - 1];
    }
    if ext != "" {
      assert |key| > 1;
    }
  }

  /** A key holds no upper-case letter, and after its leading dot neither
      a '.' nor a '/'; it is "." alone exactly when the name has no
      extension. */
  lemma ExtensionKeyShape(file: string)
    ensures forall i :: 0 <= i < |ExtensionKey(file)| ==> !IsUpper(ExtensionKey(file)[i])
    ensures forall i :: 1 <= i < |ExtensionKey(file)| ==>
              ExtensionKey(file)[i] != '.' && ExtensionKey(file)[i] != '/'
    ensures ExtensionKey(file) == "." <==> GetFileExtension(file) == ""
  {
    DotLowerShape(GetFileExtension(file));
  }

  /** An exclusion item holding an upper-case letter never matches a key. */
  lemma UpperCaseItemNeverMatches(item: string, file: string)
    requires exists i :: 0 <= i < |item| && IsUpper(item[i])
    ensures ExtensionKey(file) != item
  {
    var i :| 0 <= i < |item| && IsUpper(item[i]);
    ExtensionKeyShape(file);
    var key := ExtensionKey(file);
    if i < |key| {
      assert key[i] != item[i];
    }
  }

  /** A name without a '.' has no extension. */
  lemma NoDotNoExtension(file: string)
    requires '.' !in file
    ensures SplitExt(file).1 == ""
  {
    RFindUnique(file, '.', -1);
  }

  /** The key of `stem.ext` is the lower-cased ".ext": "a.TXT" has the key
      ".txt", so an exclusion item ".TXT" never applies to it. */
  lemma KeyOfSimpleExtension(stem: string, ext: string)
    requires '/' !in stem && exists i :: 0 <= i < |stem| && stem[i] != '.'
    requires '.' !in ext && '/' !in ext
    ensures ExtensionKey(stem + "." + ext) == "." + Lower(ext)
  {
    SimpleExtension(stem, ext);
  }

  /** A name under a directory has the key of its last component, so
      "logs/app.log" has the key of "app.log", ".log". */
  lemma KeyUnderDirectory(dir: string, base: string)
    requires '/' !in base
    ensures ExtensionKey(dir + "/" + base) == ExtensionKey(base)
  {
    BasenameOnly(dir, base);
  }

  /** A name without a '.' ("README") has the key ".". */
  lemma NoDotKey(file: string)
    requires '.' !in file
    ensures ExtensionKey(file) == "."
  {
    NoDotNoExtension(file);
  }

  /** A dot file (".env") has the key ".": its leading dots do not start
      an extension. */
  lemma DotFileKey(dots: string, name: string)
    requires |dots| >= 1 && forall i :: 0 <= i < |dots| ==> dots[i] == '.'
    requires '.' !in name && '/' !in name
    ensures ExtensionKey(dots + name) == "."
  {
    LeadingDotsSkipped(dots, name);
  }

  /** A dot in a directory name ("dir.d/file") does not give the file an
      extension: the key is ".". */
  lemma DirectoryDotKey(dir: string, base: string)
    requires '.' !in base && '/' !in base
    ensures ExtensionKey(dir + "/" + base) == "."
  {
    BasenameOnly(dir, base);
    NoDotNoExtension(base);
  }
}
