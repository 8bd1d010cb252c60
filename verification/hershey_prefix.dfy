/**
  The name prefix of the generated tables (hershey.cpp:131-153): the font
  file's path without its extension and without its directories, unless a
  prefix is given on the command line.
 */
module HersheyPrefix {
  import opened Wrappers

  const DOT: char := '.'
  const SLASH: char := '/'
  const BACKSLASH: char := '\\'

  predicate Separator(c: char) {
    c == SLASH || c == BACKSLASH
  }

  /** Every slash of s comes before its first backslash. */
  predicate NoSlashAfterBackslash(s: string) {
    forall i, j :: 0 <= i < j < |s| && s[i] == BACKSLASH ==> s[j] != SLASH
  }

  /** strrchr: where c occurs last in s, if anywhere. */
  function LastIndex(s: string, c: char): (r: Option<nat>)
    ensures r.Some? ==> r.value < |s| && s[r.value] == c && forall j :: r.value < j < |s| ==> s[j] != c
    ensures r.None? <==> c !in s
  {
    if s == [] then None
    else if s[|s| - 1] == c then Some(|s| - 1)
    else
      var r := LastIndex(s[..|s| - 1], c);
      assert s == s[..|s| - 1] + [s[|s| - 1]];
      r
  }

  /** The path with its last '.' and everything after it cut off (hershey.cpp:131-132). */
  function CutAtDot(s: string): (r: string)
    ensures |r| <= |s| && r == s[..|r|]
    ensures DOT in s ==> |r| < |s| && s[|r|] == DOT && DOT !in s[|r| + 1..]
    ensures DOT !in s ==> r == s
  {
    match LastIndex(s, DOT)
    case Some(i) => s[..i]
    case None => s
  }

  /**
    The prefix as hershey.cpp:131-153 derives it: the override when there
    is one; otherwise the path cut at its last '.', then the text after the
    last backslash of what is left, or, when there is no backslash, after
    its last slash, or all of it.
   */
  function Prefix(path: string, override: Option<string>): string {
    if override.Some? then override.value else AfterSeparator(CutAtDot(path))
  }

  /** The text after the last backslash, or, when there is none, after the last slash (hershey.cpp:137-148). */
  function AfterSeparator(cut: string): string {
    match LastIndex(cut, BACKSLASH)
    case Some(i) => cut[i + 1..]
    case None =>
      match LastIndex(cut, SLASH)
      case Some(i) => cut[i + 1..]
      case None => cut
  }

  /** A prefix given on the command line is used as it is. */
  lemma PrefixOverride(path: string, prefix: string)
    ensures Prefix(path, Some(prefix)) == prefix
  {
  }

  /**
    Without an override the prefix is the tail of the cut path that follows
    its last backslash, or, without backslashes, its last slash.
   */
  lemma PrefixShape(path: string)
    ensures var cut, r := CutAtDot(path), Prefix(path, None);
      |r| <= |cut| && r == cut[|cut| - |r|..]
      && (BACKSLASH in cut ==> BACKSLASH !in r && |r| < |cut| && cut[|cut| - |r| - 1] == BACKSLASH)
      && (BACKSLASH !in cut ==> SLASH !in r && (SLASH in cut ==> |r| < |cut| && cut[|cut| - |r| - 1] == SLASH))
      && (BACKSLASH !in cut && SLASH !in cut ==> r == cut)
  {
    var cut := CutAtDot(path);
    match LastIndex(cut, BACKSLASH)
    case Some(i) =>
      assert cut[i + 1..] == cut[|cut| - |cut[i + 1..]|..];
    case None =>
      match LastIndex(cut, SLASH)
      case Some(i) =>
        assert cut[i + 1..] == cut[|cut| - |cut[i + 1..]|..];
      case None =>
  }

  /** The last c of s is at i when s[i] is c and nothing after it is. */
  lemma LastIndexAt(s: string, c: char, i: nat)
    requires i < |s| && s[i] == c && forall j :: i < j < |s| ==> s[j] != c
    ensures LastIndex(s, c) == Some(i)
  {
  }

  lemma LastIndexNone(s: string, c: char)
    requires forall j :: 0 <= j < |s| ==> s[j] != c
    ensures LastIndex(s, c) == None
  {
  }

  lemma UnixPath()
    ensures Prefix("fonts/rowmans.jhf", None) == "rowmans"
  {
    var path := "fonts/rowmans.jhf";
    LastIndexAt(path, DOT, 13);
    var cut := path[..13];
    assert cut == "fonts/rowmans";
    LastIndexNone(cut, BACKSLASH);
    LastIndexAt(cut, SLASH, 5);
    assert cut[6..] == "rowmans";
  }

  lemma WindowsPath()
    ensures Prefix("C:\\fonts\\futural.jhf", None) == "futural"
  {
    var path := "C:\\fonts\\futural.jhf";
    LastIndexAt(path, DOT, 16);
    var cut := path[..16];
    assert cut == "C:\\fonts\\futural";
    LastIndexAt(cut, BACKSLASH, 8);
    assert cut[9..] == "futural";
  }

  /** A path without an extension whose directories hold a '.' loses everything from that '.' on. */
  lemma DotInDirectory()
    ensures Prefix("../fonts/rowmans", None) == "."
  {
    var path := "../fonts/rowmans";
    LastIndexAt(path, DOT, 1);
    var cut := path[..1];
    assert cut == ".";
    LastIndexNone(cut, BACKSLASH);
    LastIndexNone(cut, SLASH);
  }

  /** A slash after the last backslash is kept: the prefix is not a C identifier. */
  lemma SlashAfterBackslash()
    ensures Prefix("fonts\\v1/rowmans.jhf", None) == "v1/rowmans"
  {
    var path := "fonts\\v1/rowmans.jhf";
    LastIndexAt(path, DOT, 16);
    var cut := path[..16];
    assert cut == "fonts\\v1/rowmans";
    LastIndexAt(cut, BACKSLASH, 5);
    assert cut[6..] == "v1/rowmans";
  }

  /** The file name: what follows the last slash or backslash of the path. */
  function Base(path: string): (r: string)
    ensures |r| <= |path| && r == path[|path| - |r|..]
    ensures forall c :: c in r ==> !Separator(c)
    ensures |r| < |path| ==> Separator(path[|path| - |r| - 1])
  {
    if path == [] || Separator(path[|path| - 1]) then []
    else Base(path[..|path| - 1]) + [path[|path| - 1]]
  }

  /** The prefix taken from the file name alone, then cut at the file name's last '.'. */
  function BasenamePrefix(path: string, override: Option<string>): string {
    if override.Some? then override.value else CutAtDot(Base(path))
  }

  /** The corrected prefix never holds a separator, and is the file name up to its last '.'. */
  lemma BasenamePrefixShape(path: string)
    ensures var b, r := Base(path), BasenamePrefix(path, None);
      (forall c :: c in r ==> !Separator(c)) && r == b[..|r|]
      && (DOT in b ==> |r| < |b| && b[|r|] == DOT && DOT !in b[|r| + 1..])
      && (DOT !in b ==> r == b)
  {
    var b, r := Base(path), BasenamePrefix(path, None);
    forall c | c in r ensures !Separator(c) {
      assert c in b;
    }
  }

  /** The file name is what follows the separator at i when no separator comes after it. */
  lemma BaseAt(path: string, i: nat)
    requires i < |path| && Separator(path[i]) && forall j :: i < j < |path| ==> !Separator(path[j])
    ensures Base(path) == path[i + 1..]
  {
  }

  lemma RelativePath()
    ensures BasenamePrefix("../fonts/rowmans", None) == "rowmans"
  {
    var path := "../fonts/rowmans";
    BaseAt(path, 8);
    assert path[9..] == "rowmans";
    LastIndexNone("rowmans", DOT);
  }

  lemma MixedSeparators()
    ensures BasenamePrefix("fonts\\v1/rowmans.jhf", None) == "rowmans"
  {
    MixedBase();
    RowmansFile();
  }

  lemma MixedBase()
    ensures Base("fonts\\v1/rowmans.jhf") == "rowmans.jhf"
  {
    var path := "fonts\\v1/rowmans.jhf";
    BaseAt(path, 8);
    assert path[9..] == "rowmans.jhf";
  }

  lemma RowmansFile()
    ensures CutAtDot("rowmans.jhf") == "rowmans"
  {
    LastIndexAt("rowmans.jhf", DOT, 7);
    assert "rowmans.jhf"[..7] == "rowmans";
  }

  /** Cutting at the last '.' leaves the directories alone when that '.' is in the file name or there is none. */
  lemma CutKeepsDirectories(dirs: string, name: string)
    requires DOT in name || DOT !in dirs
    ensures CutAtDot(dirs + name) == dirs + CutAtDot(name)
  {
    var path, kept := dirs + name, CutAtDot(name);
    if DOT in name {
      var k := |dirs| + |kept|;
      assert path[k] == DOT;
      forall j | k < j < |path| ensures path[j] != DOT {
        assert path[j] == name[j - |dirs|] && name[j - |dirs|] in name[|kept| + 1..];
      }
      LastIndexAt(path, DOT, k);
      assert path[..k] == dirs + kept;
    } else {
      assert DOT !in path;
    }
  }

  /**
    After directories that are empty or end in a separator, and hold no
    slash behind a backslash, what follows the last separator is the file name.
   */
  lemma SeparatorEndsDirectories(dirs: string, name: string)
    requires forall j :: 0 <= j < |name| ==> !Separator(name[j])
    requires dirs == [] || Separator(dirs[|dirs| - 1])
    requires NoSlashAfterBackslash(dirs)
    ensures AfterSeparator(dirs + name) == name
  {
    var cut, n := dirs + name, |dirs|;
    forall j | n <= j < |cut| ensures !Separator(cut[j]) {
      assert cut[j] == name[j - n];
    }
    if n == 0 {
      assert cut == name;
      LastIndexNone(cut, BACKSLASH);
      LastIndexNone(cut, SLASH);
    } else if BACKSLASH in cut {
      var i :| 0 <= i < |cut| && cut[i] == BACKSLASH;
      assert i < n && dirs[i] == BACKSLASH;
      assert dirs[n - 1] == BACKSLASH by {
        if i < n - 1 {
          assert dirs[n - 1] != SLASH;
        }
      }
      LastIndexAt(cut, BACKSLASH, n - 1);
      assert cut[n..] == name;
    } else {
      assert dirs[n - 1] == SLASH;
      LastIndexNone(cut, BACKSLASH);
      LastIndexAt(cut, SLASH, n - 1);
      assert cut[n..] == name;
    }
  }

  /** The file name of a path is what follows its directories. */
  lemma BaseOfParts(dirs: string, name: string)
    requires forall c :: c in name ==> !Separator(c)
    requires dirs == [] || Separator(dirs[|dirs| - 1])
    ensures Base(dirs + name) == name
  {
    var path, r := dirs + name, Base(dirs + name);
    assert r == path[|dirs|..] == name;
  }

  /**
    For a path made of directories (empty, or ending in a separator) and a
    file name: where the last '.' of the path lies in the file name (or there
    is none) and no slash follows a backslash, the prefix as derived is the
    corrected one.
   */
  lemma BasenameAgrees(dirs: string, name: string)
    requires forall c :: c in name ==> !Separator(c)
    requires dirs == [] || Separator(dirs[|dirs| - 1])
    requires NoSlashAfterBackslash(dirs)
    requires DOT in name || DOT !in dirs
    ensures Prefix(dirs + name, None) == BasenamePrefix(dirs + name, None)
  {
    CutKeepsDirectories(dirs, name);
    NameHasNoSeparator(name);
    SeparatorEndsDirectories(dirs, CutAtDot(name));
    BaseOfParts(dirs, name);
  }

  lemma NameHasNoSeparator(b: string)
    requires forall c :: c in b ==> !Separator(c)
    ensures forall j :: 0 <= j < |CutAtDot(b)| ==> !Separator(CutAtDot(b)[j])
  {
  }
}
