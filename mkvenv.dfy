/** The rules of the virtualenv setup script: which PyQt versions can be chosen,
    which requirements file belongs to a version, the message shown for the
    deprecated tox environments, and the plan of steps the script runs. The
    directory listing and whether the venv directory exists are parameters;
    processes and file-system changes are steps of the plan. Paths are written
    relative to the repository root. */
module Mkvenv {
  import opened PyBuiltins
  import opened Collections

  // ===========================================================================
  // Versions and requirements files

  const RequirementsDir := "misc/requirements/"
  const GlobPrefix := "requirements-pyqt-"
  const GlobSuffix := ".txt"

  /** The file names the pattern 'requirements-pyqt-*.txt' matches. */
  predicate MatchesGlob(fileName: string) {
    |fileName| >= |GlobPrefix| + |GlobSuffix|
    && StartsWith(fileName, GlobPrefix) && EndsWith(fileName, GlobSuffix)
  }

  /** req.stem.split('-')[-1]: the part of the stem after its last '-'. */
  function GlobVersion(fileName: string): (v: string)
    requires MatchesGlob(fileName)
    ensures '-' !in v
    ensures EndsWith(fileName[..|fileName| - |GlobSuffix|], v)
    ensures var stem := fileName[..|fileName| - |GlobSuffix|];
            |v| < |stem| && stem[|stem| - |v| - 1] == '-'
  {
    var stem := fileName[..|fileName| - |GlobSuffix|];
    assert stem[|GlobPrefix| - 1] == '-';
    LastPieceFacts(stem);
    var parts := Split(stem, '-');
    parts[|parts| - 1]
  }

  /** The last '-'-separated piece of a stem containing '-' is a suffix free of
      '-' with a '-' just before it. */
  lemma LastPieceFacts(stem: string)
    requires '-' in stem
    ensures var parts := Split(stem, '-');
            var v := parts[|parts| - 1];
            '-' !in v && EndsWith(stem, v) && |v| < |stem| && stem[|stem| - |v| - 1] == '-'
  {
    var parts := Split(stem, '-');
    JoinSplit(stem, '-');
    LastPieceIsSuffix(parts, '-');
    SplitAtSep(stem, '-');
    SepBeforeLastPiece(parts, '-');
  }

  /** A string holding the separator splits into at least two pieces. */
  lemma {:induction false} SplitAtSep(s: string, sep: char)
    requires sep in s
    ensures |Split(s, sep)| >= 2
  {
    if s[0] != sep {
      assert sep in s[1..];
      SplitAtSep(s[1..], sep);
    }
  }

  /** In a join of two pieces or more, the separator comes just before the last piece. */
  lemma {:induction false} SepBeforeLastPiece(parts: seq<string>, sep: char)
    requires |parts| >= 2
    ensures var j, last := Join(parts, [sep]), parts[|parts| - 1];
            |last| < |j| && j[|j| - |last| - 1] == sep
  {
    var j, last := Join(parts, [sep]), parts[|parts| - 1];
    var rest := Join(parts[1..], [sep]);
    assert j == parts[0] + [sep] + rest;
    if |parts| == 2 {
      assert rest == last;
    } else {
      SepBeforeLastPiece(parts[1..], sep);
      assert parts[1..][|parts[1..]| - 1] == last;
      assert j[|j| - |last| - 1] == rest[|rest| - |last| - 1];
    }
  }

  lemma {:induction false} LastPieceIsSuffix(parts: seq<string>, sep: char)
    requires parts != []
    ensures EndsWith(Join(parts, [sep]), parts[|parts| - 1])
  {
    if |parts| > 1 {
      LastPieceIsSuffix(parts[1..], sep);
    }
  }

  /** The versions named by the files of the requirements directory. */
  function VersionSet(listing: seq<string>): (r: set<string>)
    ensures forall v :: v in r ==> '-' !in v
    ensures forall f :: f in listing && MatchesGlob(f) ==> GlobVersion(f) in r
    ensures forall v :: v in r ==> exists f :: f in listing && MatchesGlob(f) && GlobVersion(f) == v
  {
    set f | f in listing && MatchesGlob(f) :: GlobVersion(f)
  }

  /** int() of every piece, or the ValueError of the first one that is not a number. */
  function ParseAll(pieces: seq<string>): (r: Result<seq<nat>>)
    ensures r.Success? <==> forall i :: 0 <= i < |pieces| ==> ParseNat(pieces[i]).Success?
    ensures r.Failure? ==> r.error == ValueError
    ensures r.Success? ==> |r.value| == |pieces|
    ensures r.Success? ==> forall i :: 0 <= i < |pieces| ==> ParseNat(pieces[i]) == Success(r.value[i])
  {
    if pieces == [] then Success([])
    else
      match ParseNat(pieces[0])
      case Failure(e) => Failure(e)
      case Success(n) =>
        match ParseAll(pieces[1..])
        case Failure(e) => Failure(e)
        case Success(ns) => Success([n] + ns)
  }

  /** The sort key [int(c) for c in v.split('.')]. */
  function VersionKey(v: string): Result<seq<nat>> {
    ParseAll(Split(v, '.'))
  }

  predicate HasKey(v: string) {
    VersionKey(v).Success?
  }

  /** Python's a <= b on lists of integers: lexicographic, a proper prefix first. */
  predicate KeyLe(a: seq<nat>, b: seq<nat>): (r: bool)
    ensures a == [] ==> r
    ensures r && a != [] ==> b != [] && a[0] <= b[0]
    ensures a != [] && b != [] && a[0] < b[0] ==> r
  {
    if a == [] then true
    else if b == [] then false
    else if a[0] != b[0] then a[0] < b[0]
    else KeyLe(a[1..], b[1..])
  }

  lemma {:induction false} KeyLeTotal(a: seq<nat>, b: seq<nat>)
    ensures KeyLe(a, b) || KeyLe(b, a)
  {
    if a != [] && b != [] && a[0] == b[0] {
      KeyLeTotal(a[1..], b[1..]);
    }
  }

  lemma {:induction false} KeyLeTransitive(a: seq<nat>, b: seq<nat>, c: seq<nat>)
    requires KeyLe(a, b) && KeyLe(b, c)
    ensures KeyLe(a, c)
  {
    if a != [] && b != [] && c != [] && a[0] == b[0] && b[0] == c[0] {
      KeyLeTransitive(a[1..], b[1..], c[1..]);
    }
  }

  lemma {:induction false} KeyLeAntisymmetric(a: seq<nat>, b: seq<nat>)
    requires KeyLe(a, b) && KeyLe(b, a)
    ensures a == b
  {
    if a != [] && b != [] {
      KeyLeAntisymmetric(a[1..], b[1..]);
      assert a == [a[0]] + a[1..] && b == [b[0]] + b[1..];
    }
  }

  lemma SplitDotted(a: string, b: string)
    requires AllDigits(a) && AllDigits(b)
    ensures Split(a + "." + b, '.') == [a, b]
  {
    assert '.' !in a && '.' !in b;
    SplitJoin([a, b], '.');
    assert Join([a, b], ".") == a + "." + b;
  }

  /** Versions compare by number, not by text: 5.9 sorts before 5.10. */
  lemma NumericOrder()
    ensures VersionKey("5.9") == Success([5, 9]) && VersionKey("5.10") == Success([5, 10])
    ensures KeyLe([5, 9], [5, 10]) && !KeyLe([5, 10], [5, 9])
  {
    SplitDotted("5", "9");
    SplitDotted("5", "10");
    ParseNatToString(5);
    ParseNatToString(9);
    ParseNatToString(10);
    assert NatToString(5) == "5" && NatToString(9) == "9" && NatToString(10) == "10";
    var nine: seq<string>, ten: seq<string> := ["9"], ["10"];
    var v59: seq<string>, v510: seq<string> := ["5", "9"], ["5", "10"];
    assert nine[1..] == [] && ten[1..] == [];
    assert v59[1..] == nine && v510[1..] == ten;
    assert ParseAll(nine) == Success([9] + []);
    assert ParseAll(ten) == Success([10] + []);
    assert v59[0] == "5" && v510[0] == "5";
    assert ParseAll(v59) == Success([5] + ([9] + []));
    assert ParseAll(v510) == Success([5] + ([10] + []));
    assert [5] + ([9] + []) == [5, 9] && [5] + ([10] + []) == [5, 10];
  }

  /** The key never exists for "auto", so it cannot come out of the sorted part. */
  lemma AutoHasNoKey()
    ensures !HasKey("auto")
  {
    SplitWithoutSep("auto", '.');
    assert !IsDigit("auto"[0]);
  }

  /** The sort key of a version that has one, and [] otherwise. */
  function Key(v: string): seq<nat> {
    if HasKey(v) then VersionKey(v).value else []
  }

  /** vs is in ascending key order, every element having a key. */
  predicate SortedByKey(vs: seq<string>) {
    (forall i :: 0 <= i < |vs| ==> HasKey(vs[i]))
    && forall i, j :: 0 <= i < j < |vs| ==> KeyLe(Key(vs[i]), Key(vs[j]))
  }

  /** Inserts v before the first element whose key is not below v's. */
  function InsertByKey(vs: seq<string>, v: string): (r: seq<string>)
    ensures multiset(r) == multiset(vs) + multiset{v}
  {
    if vs == [] then [v]
    else if KeyLe(Key(v), Key(vs[0])) then [v] + vs
    else
      assert vs == [vs[0]] + vs[1..];
      [vs[0]] + InsertByKey(vs[1..], v)
  }

  lemma InsertByKeyMembers(vs: seq<string>, v: string, x: string)
    ensures x in InsertByKey(vs, v) <==> x in vs || x == v
  {
    assert x in InsertByKey(vs, v) <==> x in multiset(InsertByKey(vs, v));
    assert x in vs <==> x in multiset(vs);
  }

  /** A sorted sequence stays sorted behind an element whose key is not above any of its keys. */
  lemma ConsSorted(x: string, rest: seq<string>)
    requires SortedByKey(rest) && HasKey(x)
    requires forall y :: y in rest ==> KeyLe(Key(x), Key(y))
    ensures SortedByKey([x] + rest)
  {
    var r := [x] + rest;
    forall i | 0 <= i < |r| ensures HasKey(r[i]) {
      if i > 0 {
        assert r[i] == rest[i - 1];
      }
    }
    forall i, j | 0 <= i < j < |r| ensures KeyLe(Key(r[i]), Key(r[j])) {
      assert r[j] == rest[j - 1] && r[j] in rest;
      if i > 0 {
        assert r[i] == rest[i - 1];
      }
    }
  }

  /** Inserting into a sorted sequence keeps it sorted. */
  lemma {:induction false} InsertByKeySorted(vs: seq<string>, v: string)
    requires SortedByKey(vs) && HasKey(v)
    ensures SortedByKey(InsertByKey(vs, v))
  {
    if vs == [] {
    } else if KeyLe(Key(v), Key(vs[0])) {
      forall y | y in vs ensures KeyLe(Key(v), Key(y)) {
        var j :| 0 <= j < |vs| && vs[j] == y;
        if j > 0 { KeyLeTransitive(Key(v), Key(vs[0]), Key(y)); }
      }
      ConsSorted(v, vs);
    } else {
      var rest := InsertByKey(vs[1..], v);
      assert SortedByKey(vs[1..]);
      InsertByKeySorted(vs[1..], v);
      KeyLeTotal(Key(v), Key(vs[0]));
      forall y | y in rest ensures KeyLe(Key(vs[0]), Key(y)) {
        InsertByKeyMembers(vs[1..], v, y);
        if y != v {
          var k :| 0 <= k < |vs[1..]| && vs[1..][k] == y;
          assert vs[k + 1] == y;
        }
      }
      ConsSorted(vs[0], rest);
    }
  }

  /** Inserting a new element into a sequence without repetitions leaves none. */
  lemma {:induction false} InsertByKeyDistinct(vs: seq<string>, v: string)
    requires Distinct(vs) && v !in vs
    ensures Distinct(InsertByKey(vs, v))
  {
    if vs == [] {
    } else if KeyLe(Key(v), Key(vs[0])) {
      DistinctCons(v, vs);
    } else {
      var tail := vs[1..];
      var rest := InsertByKey(tail, v);
      assert Distinct(tail) by {
        forall i, j | 0 <= i < j < |tail| ensures tail[i] != tail[j] {
          assert tail[i] == vs[i + 1] && tail[j] == vs[j + 1];
        }
      }
      assert v !in tail;
      InsertByKeyDistinct(tail, v);
      forall k | 0 <= k < |tail| ensures tail[k] != vs[0] {
        assert tail[k] == vs[k + 1];
      }
      InsertByKeyMembers(tail, v, vs[0]);
      DistinctCons(vs[0], rest);
    }
  }

  /** Putting an element in front of a sequence without repetitions that lacks it. */
  lemma DistinctCons(x: string, s: seq<string>)
    requires Distinct(s) && x !in s
    ensures Distinct([x] + s)
  {
    var r := [x] + s;
    forall i, j | 0 <= i < j < |r| ensures r[i] != r[j] {
      assert r[j] == s[j - 1];
      if i > 0 {
        assert r[i] == s[i - 1];
      }
    }
  }

  /** The first loop of pyqt_versions: the set of versions of the matching files. */
  method CollectVersions(listing: seq<string>) returns (versionSet: set<string>)
    ensures versionSet == VersionSet(listing)
  {
    versionSet := {};
    for i := 0 to |listing|
      invariant versionSet == VersionSet(listing[..i])
    {
      var req := listing[i];
      assert listing[..i + 1] == listing[..i] + [req];
      if MatchesGlob(req) {
        versionSet := versionSet + {GlobVersion(req)};
      }
    }
    assert listing[..|listing|] == listing;
  }

  /** pyqt_versions: the distinct versions of the requirements files, ascending by
      their numeric components, then 'auto'. A version that is not a dotted
      number makes the sort key raise ValueError. */
  method PyqtVersions(listing: seq<string>) returns (r: Result<seq<string>>)
    ensures r.Failure? <==> exists v :: v in VersionSet(listing) && !HasKey(v)
    ensures r.Failure? ==> r.error == ValueError
    ensures r.Success? ==> |r.value| >= 1 && r.value[|r.value| - 1] == "auto"
    ensures r.Success? ==> Enumerates(r.value[..|r.value| - 1], VersionSet(listing))
    ensures r.Success? ==> SortedByKey(r.value[..|r.value| - 1])
    ensures r.Success? ==> "auto" !in r.value[..|r.value| - 1]
  {
    var versionSet := CollectVersions(listing);

    var remaining := versionSet;
    var versions: seq<string> := [];
    while remaining != {}
      invariant remaining <= versionSet
      invariant SortedByKey(versions) && Distinct(versions)
      invariant forall v :: v in versions <==> v in versionSet && v !in remaining
      decreases remaining
    {
      var v :| v in remaining;
      if !HasKey(v) {
        return Failure(ValueError);
      }
      remaining := remaining - {v};
      InsertByKeySorted(versions, v);
      InsertByKeyDistinct(versions, v);
      ghost var before := versions;
      versions := InsertByKey(versions, v);
      forall x ensures x in versions <==> x in before || x == v {
        InsertByKeyMembers(before, v, x);
      }
    }
    AutoHasNoKey();
    r := Success(versions + ["auto"]);
    assert r.value[..|r.value| - 1] == versions;
  }

  /** The requirements file name of a version: 'auto' has no version suffix. */
  function RequirementsFileName(version: string): (name: string)
    ensures version == "auto" ==> name == "requirements-pyqt.txt"
    ensures version != "auto" ==> name == "requirements-pyqt-" + version + ".txt"
  {
    var suffix := if version == "auto" then "" else "-" + version;
    "requirements-pyqt" + suffix + ".txt"
  }

  /** pyqt_requirements_file: always a file of the requirements directory. */
  function PyqtRequirementsFile(version: string): (path: string)
    ensures StartsWith(path, RequirementsDir)
    ensures EndsWith(path, GlobSuffix)
  {
    RequirementsDir + RequirementsFileName(version)
  }

  /** The file of a listed version is one the version listing looks at, and it
      names that version back. */
  lemma RequirementsFileRoundTrip(version: string)
    requires version != "auto" && '-' !in version
    ensures MatchesGlob(RequirementsFileName(version))
    ensures GlobVersion(RequirementsFileName(version)) == version
  {
    assert RequirementsFileName(version) == GlobPrefix + version + GlobSuffix;
    GlobVersionOfPart(version);
  }

  /** The glob reads back the part it matched when that part holds no '-'. */
  lemma GlobVersionOfPart(part: string)
    requires '-' !in part
    ensures MatchesGlob(GlobPrefix + part + GlobSuffix)
    ensures GlobVersion(GlobPrefix + part + GlobSuffix) == part
  {
    var f := GlobPrefix + part + GlobSuffix;
    var stem := f[..|f| - |GlobSuffix|];
    assert stem == "requirements" + "-" + "pyqt" + "-" + part;
    assert f[..|GlobPrefix|] == GlobPrefix;
    assert f[|f| - |GlobSuffix|..] == GlobSuffix;
    SplitJoin(["requirements", "pyqt", part], '-');
    assert Join(["requirements", "pyqt", part], "-") == stem;
  }

  /** Every version read from the listing, other than 'auto', names a requirements
      file that the listing would read the same version from. */
  lemma OfferedVersionsRoundTrip(listing: seq<string>, version: string)
    requires version in VersionSet(listing) && version != "auto"
    ensures MatchesGlob(RequirementsFileName(version))
    ensures GlobVersion(RequirementsFileName(version)) == version
  {
    RequirementsFileRoundTrip(version);
  }

  /** A listed file whose glob part holds no '-' reads back a version that names
      that same file, unless the version is 'auto'. */
  lemma ListedFileRoundTrip(f: string)
    requires MatchesGlob(f) && '-' !in f[|GlobPrefix|..|f| - |GlobSuffix|]
    ensures GlobVersion(f) == f[|GlobPrefix|..|f| - |GlobSuffix|]
    ensures GlobVersion(f) != "auto" ==> RequirementsFileName(GlobVersion(f)) == f
  {
    var mid := f[|GlobPrefix|..|f| - |GlobSuffix|];
    assert f == GlobPrefix + mid + GlobSuffix;
    GlobVersionOfPart(mid);
  }

  /** The 'auto' file is not one the version listing looks at. */
  lemma AutoFileNotListed()
    ensures RequirementsFileName("auto") == "requirements-pyqt.txt"
    ensures !MatchesGlob(RequirementsFileName("auto"))
  {
    assert RequirementsFileName("auto")[17] == '.';
  }

  // ===========================================================================
  // The tox deprecation message

  /** The tox environment that was used, and the options to pass to this script instead. */
  datatype ToxHint = ToxHint(env: string, args: string)

  /** show_tox_error's choice of message: only 'link' and 'binary' had a tox
      environment; any other type raises AssertionError. */
  function ToxErrorHint(pyqtType: string): (r: Result<ToxHint>)
    ensures r.Success? <==> pyqtType == "link" || pyqtType == "binary"
    ensures r.Failure? ==> r.error == AssertionError
    ensures pyqtType == "link" ==> r.value.env == "mkvenv" && r.value.args == " --pyqt-type link"
    ensures pyqtType == "binary" ==> r.value.env == "mkvenv-pypi" && r.value.args == ""
  {
    if pyqtType == "link" then Success(ToxHint("mkvenv", " --pyqt-type link"))
    else if pyqtType == "binary" then Success(ToxHint("mkvenv-pypi", ""))
    else Failure(AssertionError)
  }

  /** The message names the tox environment and ends by recommending this script
      with the hint's options. */
  function ToxErrorMessage(h: ToxHint): (m: string)
    ensures StartsWith(m, "tox -e " + h.env + " is deprecated.")
    ensures EndsWith(m, "scripts/mkvenv.py" + h.args + " instead.")
  {
    "tox -e " + h.env + " is deprecated. Please use scripts/mkvenv.py" + h.args + " instead."
  }

  const DefaultPyqtType := "binary"

  /** The non-empty words of a command line. */
  function Words(s: string): seq<string> {
    var pieces := Split(s, ' ');
    NonEmpty(pieces)
  }

  function NonEmpty(pieces: seq<string>): seq<string> {
    if pieces == [] then []
    else (if pieces[0] == "" then [] else [pieces[0]]) + NonEmpty(pieces[1..])
  }

  /** The --pyqt-type a command line selects: the last one given, else current. */
  function PyqtTypeOption(argv: seq<string>, current: string): string
    decreases |argv|
  {
    if |argv| < 2 then current
    else if argv[0] == "--pyqt-type" then PyqtTypeOption(argv[2..], argv[1])
    else PyqtTypeOption(argv[1..], current)
  }

  /** The words of " a b" for words a and b without spaces. */
  lemma TwoWords(a: string, b: string)
    requires a != "" && b != "" && ' ' !in a && ' ' !in b
    ensures Words(" " + a + " " + b) == [a, b]
  {
    var pieces := ["", a, b];
    assert pieces[1..] == [a, b] && pieces[1..][1..] == [b];
    assert Join([b], " ") == b;
    assert Join([a, b], " ") == a + " " + b;
    assert Join(pieces, " ") == "" + " " + (a + " " + b) == " " + a + " " + b;
    SplitJoin(pieces, ' ');
    assert Split(" " + a + " " + b, ' ') == pieces;
    assert [b][1..] == [] && NonEmpty([b]) == [b] + NonEmpty([]) == [b];
    assert NonEmpty(pieces) == NonEmpty([a, b]) == [a] + NonEmpty([b]) == [a, b];
  }

  /** A command line " --pyqt-type b" selects b. */
  lemma TypeOptionOfWords(a: string, b: string, current: string)
    requires a == "--pyqt-type" && b != "" && ' ' !in b
    ensures PyqtTypeOption(Words(" " + a + " " + b), current) == b
  {
    assert ' ' !in a by {
      forall i | 0 <= i < |a| ensures a[i] != ' ' { }
    }
    TwoWords(a, b);
    assert [a, b][2..] == [];
  }

  /** The command the message recommends installs PyQt the same way as the tox
      environment it replaces. */
  lemma ToxHintKeepsType(pyqtType: string)
    requires ToxErrorHint(pyqtType).Success?
    ensures PyqtTypeOption(Words(ToxErrorHint(pyqtType).value.args), DefaultPyqtType) == pyqtType
  {
    var args := ToxErrorHint(pyqtType).value.args;
    if pyqtType == "link" {
      assert ' ' !in pyqtType by {
        forall i | 0 <= i < |pyqtType| ensures pyqtType[i] != ' ' { }
      }
      assert args == " " + "--pyqt-type" + " " + pyqtType;
      TypeOptionOfWords("--pyqt-type", pyqtType, DefaultPyqtType);
    } else {
      assert args == "";
      assert Words(args) == [];
    }
  }

  // ===========================================================================
  // The plan of main

  /** The parsed command line. */
  datatype Flags = Flags(keep: bool, venvDir: string, pyqtVersion: string, pyqtType: string, toxError: bool)

  /** One effect of the script, in the order it happens. */
  datatype Step =
    | PrintError(message: string)                // show_tox_error's message
    | Exit(status: int)                          // sys.exit(status)
    | Raise(error: Exception)                    // an uncaught exception ends the script
    | RemoveDir(dir: string)                     // shutil.rmtree
    | CreateVenv(dir: string)                    // venv.create with pip
    | PipInstall(dir: string, args: seq<string>) // python3 -m pip install args, inside the venv
    | LinkPyqt(dir: string)                      // link the system-wide PyQt into the venv

  /** delete_old_venv: removes the directory only if it exists. */
  function DeleteOldVenv(dir: string, dirExists: bool): (r: seq<Step>)
    ensures |r| <= 1
    ensures r != [] <==> dirExists
    ensures forall s :: s in r ==> s == RemoveDir(dir)
  {
    if dirExists then [RemoveDir(dir)] else []
  }

  function UpgradePip(dir: string): (s: Step)
    ensures s.PipInstall? && s.dir == dir && s.args == ["-U", "pip"]
  {
    PipInstall(dir, ["-U", "pip"])
  }

  const PyqtPackages := "PyQt5,PyQtWebEngine"

  /** The PyQt step for the chosen type; binary and source installs read the
      requirements file of the chosen version. */
  function InstallPyqt(dir: string, pyqtType: string, version: string): (s: Step)
    ensures pyqtType == "binary" ==> s.PipInstall? && s.args == ["-r", PyqtRequirementsFile(version), "--only-binary", PyqtPackages]
    ensures pyqtType == "source" ==> s.PipInstall? && s.args == ["-r", PyqtRequirementsFile(version), "--verbose", "--no-binary", PyqtPackages]
    ensures pyqtType == "link" ==> s == LinkPyqt(dir)
    ensures s.Raise? <==> pyqtType != "binary" && pyqtType != "source" && pyqtType != "link"
    ensures s.Raise? ==> s.error == AssertionError
    ensures s.PipInstall? ==> s.dir == dir
  {
    if pyqtType == "binary" then PipInstall(dir, ["-r", PyqtRequirementsFile(version), "--only-binary", PyqtPackages])
    else if pyqtType == "source" then PipInstall(dir, ["-r", PyqtRequirementsFile(version), "--verbose", "--no-binary", PyqtPackages])
    else if pyqtType == "link" then LinkPyqt(dir)
    else Raise(AssertionError)
  }

  /** The other dependencies, from requirements.txt at the repository root. */
  function InstallRequirements(dir: string): (s: Step)
    ensures s.PipInstall? && s.dir == dir && s.args == ["-r", "requirements.txt"]
  {
    PipInstall(dir, ["-r", "requirements.txt"])
  }

  /** qutebrowser itself, editable, from the repository root. */
  function InstallQutebrowser(dir: string): (s: Step)
    ensures s.PipInstall? && s.dir == dir && s.args == ["-e", "."]
  {
    PipInstall(dir, ["-e", "."])
  }

  /** A step that touches the virtualenv. */
  predicate IsVenvStep(s: Step) {
    s.RemoveDir? || s.CreateVenv? || s.PipInstall? || s.LinkPyqt?
  }

  /** main: the steps the script takes for the parsed flags, given whether the
      venv directory exists when it starts. */
  method MainPlan(flags: Flags, venvExists: bool) returns (plan: seq<Step>)
    // --tox-error: only the message and exit status 1, or AssertionError for a type without a tox environment
    ensures flags.toxError ==> forall s :: s in plan ==> !IsVenvStep(s)
    ensures flags.toxError && ToxErrorHint(flags.pyqtType).Success? ==>
              plan == [PrintError(ToxErrorMessage(ToxErrorHint(flags.pyqtType).value)), Exit(1)]
    ensures flags.toxError && ToxErrorHint(flags.pyqtType).Failure? ==> plan == [Raise(AssertionError)]
    ensures Exit(1) in plan ==> flags.toxError
    // without --keep, the old venv is removed if it exists, then created; with --keep neither
    ensures !flags.toxError ==> (RemoveDir(flags.venvDir) in plan <==> !flags.keep && venvExists)
    ensures !flags.toxError ==> (CreateVenv(flags.venvDir) in plan <==> !flags.keep)
    ensures !flags.toxError && !flags.keep ==>
              plan[..SetupLength(flags, venvExists)] == DeleteOldVenv(flags.venvDir, venvExists) + [CreateVenv(flags.venvDir)]
    // then pip, PyQt, the other requirements and qutebrowser, in this order
    ensures !flags.toxError ==>
              var u := SetupLength(flags, venvExists);
              && u + 2 <= |plan|
              && plan[u] == UpgradePip(flags.venvDir)
              && plan[u + 1] == InstallPyqt(flags.venvDir, flags.pyqtType, flags.pyqtVersion)
              && (plan[u + 1].Raise? ==> |plan| == u + 2)
              && (!plan[u + 1].Raise? ==> plan[u + 2..] == [InstallRequirements(flags.venvDir), InstallQutebrowser(flags.venvDir)])
  {
    var venvDir := flags.venvDir;
    if flags.toxError {
      var hint := ToxErrorHint(flags.pyqtType);
      if hint.Failure? {
        return [Raise(hint.error)];
      }
      return [PrintError(ToxErrorMessage(hint.value)), Exit(1)];
    }
    plan := [];
    if !flags.keep {
      plan := plan + DeleteOldVenv(venvDir, venvExists);
      plan := plan + [CreateVenv(venvDir)];
    }
    plan := plan + [UpgradePip(venvDir)];
    var pyqt := InstallPyqt(venvDir, flags.pyqtType, flags.pyqtVersion);
    plan := plan + [pyqt];
    if pyqt.Raise? {
      return;
    }
    plan := plan + [InstallRequirements(venvDir)];
    plan := plan + [InstallQutebrowser(venvDir)];
  }

  /** The number of steps before the pip upgrade. */
  function SetupLength(flags: Flags, venvExists: bool): nat {
    if flags.keep then 0 else |DeleteOldVenv(flags.venvDir, venvExists)| + 1
  }
}
