/**
 * `ProcessServiceName`: from a Go module path to the folder name and the two
 * identifiers that the templates see.
 *
 * Title-casing is modelled by an ASCII rule: the first character of a word is
 * upper-cased when it is an ASCII lower-case letter and the rest of the word
 * is kept (the `cases.NoLower` option). This approximates the Unicode title
 * caser of `golang.org/x/text/cases`.
 */
module ServiceName {
  import opened Results
  import opened GoStrings

  /** The values ProcessServiceName derives: the folder the project is written
      to, the `Service` and `service` identifiers and the unchanged `Module`. */
  datatype Names = Names(folder: string, exported: string, unexported: string, modulePath: string)

  /** `serviceName[0:1]` panics on an empty exported name; the model reports it. */
  datatype NameError = EmptyExportedName

  /** The last element of the module path (`filepath.Split`). */
  function FolderName(modulePath: string): (r: string)
    ensures |r| <= |modulePath|
    ensures r == modulePath[|modulePath| - |r|..]
    ensures '/' !in r
    ensures |r| < |modulePath| ==> modulePath[|modulePath| - |r| - 1] == '/'
  {
    SplitPath(modulePath).1
  }

  /** Title-casing of one word, ASCII approximation with `cases.NoLower`. */
  function TitleWord(w: string): (r: string)
  {
    if w == [] then [] else [Upper(w[0])] + w[1..]
  }

  /** Title-case every piece and concatenate them without separators. */
  function TitleAll(pieces: seq<string>): (r: string)
  {
    if pieces == [] then [] else TitleWord(pieces[0]) + TitleAll(pieces[1..])
  }

  /** The two `strings.Replace` calls that turn `.` and `_` into `-`. */
  function Dashed(s: string): (r: string)
  {
    ReplaceChar(ReplaceChar(s, '.', '-'), '_', '-')
  }

  /** The exported identifier, step by step as ProcessServiceName builds it. */
  function ExportedName(folder: string): (r: string)
  {
    var trimmed := TrimSpace(TitleWord(folder));
    var dashed := Dashed(trimmed);
    var joined := TitleAll(Split(dashed, '-'));
    StripNonWord(joined)
  }

  /** The unexported identifier: the exported one with its first character
      lower-cased. */
  function UnexportedName(exported: string): (r: string)
    requires exported != []
    ensures |r| == |exported| && r[1..] == exported[1..]
    ensures r[0] == Lower(exported[0]) && !IsAsciiUpper(r[0])
  {
    [Lower(exported[0])] + exported[1..]
  }

  /** ProcessServiceName, with the panic on an empty exported name turned
      into a failure. */
  function Derive(modulePath: string): (r: Result<Names, NameError>)
    ensures r.Failure? <==> forall i :: 0 <= i < |FolderName(modulePath)| ==> !IsAsciiAlnum(FolderName(modulePath)[i])
    ensures r.Success? ==>
      && r.value.modulePath == modulePath
      && r.value.folder == FolderName(modulePath)
      && r.value.exported != []
      && (forall i :: 0 <= i < |r.value.exported| ==> IsAsciiAlnum(r.value.exported[i]))
      && |r.value.unexported| == |r.value.exported|
      && r.value.unexported[1..] == r.value.exported[1..]
      && r.value.unexported[0] == Lower(r.value.exported[0])
    ensures r.Success? ==>
      && r.value.exported == ExportedName(r.value.folder)
      && LowerAll(r.value.exported) == LowerAll(Keep(r.value.folder, IsAsciiAlnum))
  {
    var folder := FolderName(modulePath);
    var exported := ExportedName(folder);
    ExportedIsFoldedAlnum(folder);
    ExportedNameIsAlnum(folder);
    KeepEmpty(folder, IsAsciiAlnum);
    if exported == [] then Failure(EmptyExportedName)
    else Success(Names(folder, exported, UnexportedName(exported), modulePath))
  }

  /** A module path ending in `/` has an empty folder name and no identifier. */
  lemma {:induction false} EmptyFolderFails(modulePath: string)
    ensures FolderName(modulePath) == [] ==> Derive(modulePath).Failure?
  {
    var folder := FolderName(modulePath);
    if folder == [] {
      assert Keep(folder, IsAsciiAlnum) == [];
      assert LowerAll([]) == [];
    }
  }

  // ---------------------------------------------------------------------------
  // A one-pass reference for the split / title / concatenate steps

  predicate IsSeparator(c: char) {
    c == '-' || c == '.' || c == '_'
  }

  /** Scans left to right, drops every separator and upper-cases the first
      character of the name and each character that follows a separator. */
  function Camel(s: string, atStart: bool): (r: string)
  {
    if s == [] then []
    else
      var sep := IsSeparator(s[0]);
      (if sep then [] else [if atStart then Upper(s[0]) else s[0]]) + Camel(s[1..], sep)
  }

  /** No separator survives the scan. */
  lemma {:induction false} CamelDropsSeparators(s: string, atStart: bool)
    ensures forall i :: 0 <= i < |Camel(s, atStart)| ==> !IsSeparator(Camel(s, atStart)[i])
    decreases |s|
  {
    if s != [] {
      CamelDropsSeparators(s[1..], true);
      CamelDropsSeparators(s[1..], false);
    }
  }

  /** Splitting a dashed name on `-`, title-casing each piece and concatenating
      is the one-pass scan; without the title-casing of the first piece it is
      the scan that starts inside a word. */
  lemma {:induction false} PiecesAreCamel(t: string)
    requires forall i :: 0 <= i < |t| ==> t[i] != '.' && t[i] != '_'
    ensures TitleAll(Split(t, '-')) == Camel(t, true)
    ensures Split(t, '-')[0] + TitleAll(Split(t, '-')[1..]) == Camel(t, false)
    decreases |t|
  {
    if t == [] {
      assert Split(t, '-') == [[]];
      assert TitleAll([[]]) == TitleWord([]) + TitleAll([]);
    } else {
      PiecesAreCamel(t[1..]);
      if t[0] == '-' {
        PiecesAreCamelDash(t);
      } else {
        PiecesAreCamelOther(t);
      }
    }
  }

  lemma {:induction false} PiecesAreCamelDash(t: string)
    requires t != [] && t[0] == '-'
    requires TitleAll(Split(t[1..], '-')) == Camel(t[1..], true)
    ensures TitleAll(Split(t, '-')) == Camel(t, true)
    ensures Split(t, '-')[0] + TitleAll(Split(t, '-')[1..]) == Camel(t, false)
  {
    var pieces := Split(t[1..], '-');
    assert Split(t, '-') == [[]] + pieces;
    assert ([[]] + pieces)[1..] == pieces;
    assert TitleAll([[]] + pieces) == TitleWord([]) + TitleAll(pieces);
  }

  lemma {:induction false} PiecesAreCamelOther(t: string)
    requires t != [] && !IsSeparator(t[0])
    requires Split(t[1..], '-')[0] + TitleAll(Split(t[1..], '-')[1..]) == Camel(t[1..], false)
    ensures TitleAll(Split(t, '-')) == Camel(t, true)
    ensures Split(t, '-')[0] + TitleAll(Split(t, '-')[1..]) == Camel(t, false)
  {
    var pieces := Split(t[1..], '-');
    SplitOther(t);
    TitledFirstPiece(t[0], pieces[0], TitleAll(pieces[1..]));
    TitleAllCons([t[0]] + pieces[0], pieces[1..]);
  }

  lemma {:induction false} TitledFirstPiece(c: char, p: string, tail: string)
    ensures TitleWord([c] + p) + tail == [Upper(c)] + (p + tail)
    ensures ([c] + p) + tail == [c] + (p + tail)
  {
    assert ([c] + p)[1..] == p;
  }

  lemma {:induction false} SplitOther(t: string)
    requires t != [] && t[0] != '-'
    ensures Split(t, '-') == [[t[0]] + Split(t[1..], '-')[0]] + Split(t[1..], '-')[1..]
    ensures Split(t, '-')[0] == [t[0]] + Split(t[1..], '-')[0]
    ensures Split(t, '-')[1..] == Split(t[1..], '-')[1..]
  {
  }

  lemma {:induction false} TitleAllCons(first: string, rest: seq<string>)
    ensures TitleAll([first] + rest) == TitleWord(first) + TitleAll(rest)
  {
    assert ([first] + rest)[1..] == rest;
  }

  /** Replacing `.` and `_` by `-` does not change what the scan sees. */
  lemma {:induction false} CamelIgnoresDashing(s: string, atStart: bool)
    ensures Camel(Dashed(s), atStart) == Camel(s, atStart)
    decreases |s|
  {
    if s != [] {
      var d := Dashed(s);
      assert d[0] == (if s[0] == '.' || s[0] == '_' then '-' else s[0]);
      assert d[1..] == Dashed(s[1..]);
      CamelIgnoresDashing(s[1..], true);
      CamelIgnoresDashing(s[1..], false);
    }
  }

  /** Title-casing a name that the scan title-cases anyway changes nothing. */
  lemma {:induction false} CamelTitled(s: string)
    ensures Camel(TitleWord(s), true) == Camel(s, true)
  {
    if s != [] {
      assert TitleWord(s)[1..] == s[1..];
    }
  }

  /** A non-space character stops `TrimLeft`: what follows it is kept. */
  lemma {:induction false} TrimLeftAround(a: string, c: char, b: string)
    requires !IsSpace(c)
    ensures TrimLeft(a + [c] + b) == TrimLeft(a) + [c] + b
    decreases |a|
  {
    if a != [] {
      assert (a + [c] + b)[1..] == a[1..] + [c] + b;
      TrimLeftAround(a[1..], c, b);
    }
  }

  /** A non-space character stops `TrimRight`: what precedes it is kept. */
  lemma {:induction false} TrimRightAround(a: string, c: char, b: string)
    requires !IsSpace(c)
    ensures TrimRight(a + [c] + b) == a + [c] + TrimRight(b)
    decreases |b|
  {
    var s := a + [c] + b;
    if b != [] {
      assert s[|s| - 1] == b[|b| - 1];
      if IsSpace(b[|b| - 1]) {
        assert s[..|s| - 1] == a + [c] + b[..|b| - 1];
        TrimRightAround(a, c, b[..|b| - 1]);
      }
    }
  }

  /** A non-space character stops trimming from both sides. */
  lemma {:induction false} TrimSpaceAround(a: string, c: char, b: string)
    requires !IsSpace(c)
    ensures TrimSpace(a + [c] + b) == TrimLeft(a) + [c] + TrimRight(b)
  {
    TrimLeftAround(a, c, b);
    TrimRightAround(TrimLeft(a), c, b);
  }

  /** The whole-name title-casing before the trim is subsumed by the
      title-casing of the first piece. */
  lemma {:induction false} TitleBeforeTrimIsRedundant(s: string)
    ensures Camel(TrimSpace(TitleWord(s)), true) == Camel(TrimSpace(s), true)
  {
    if s != [] && IsAsciiLower(s[0]) {
      TrimCommutesWithTitle(s);
      CamelTitled(TrimSpace(s));
    } else if s != [] {
      assert TitleWord(s) == [s[0]] + s[1..] == s;
    }
  }

  /** When the name starts with a lower-case letter, title-casing before or
      after the trim gives the same string. */
  lemma {:induction false} TrimCommutesWithTitle(s: string)
    requires s != [] && IsAsciiLower(s[0])
    ensures TrimSpace(TitleWord(s)) == TitleWord(TrimSpace(s))
  {
    var c, t := s[0], s[1..];
    var u := Upper(c);
    SpaceIsNotAlnum(u);
    SpaceIsNotAlnum(c);
    assert s == [c] + t;
    TitleWordCons(c, t);
    TrimSpaceFromNonSpace(u, t);
    TrimSpaceFromNonSpace(c, t);
    TitleWordCons(c, TrimRight(t));
  }

  lemma {:induction false} TitleWordCons(c: char, t: string)
    ensures TitleWord([c] + t) == [Upper(c)] + t
  {
    assert ([c] + t)[1..] == t;
  }

  /** A string that starts with a non-space character is only trimmed on the right. */
  lemma {:induction false} TrimSpaceFromNonSpace(c: char, t: string)
    requires !IsSpace(c)
    ensures TrimSpace([c] + t) == [c] + TrimRight(t)
  {
    var s := [c] + t;
    assert s[0] == c;
    assert TrimLeft(s) == s;
    TrimRightStopsAt(c, t);
  }

  /** The exported name is the one-pass scan of the trimmed folder name with
      everything but `[0-9A-Za-z_]` removed. */
  lemma {:induction false} ExportedNameIsScan(folder: string)
    ensures ExportedName(folder) == StripNonWord(Camel(TrimSpace(folder), true))
  {
    var trimmed := TrimSpace(TitleWord(folder));
    PiecesAreCamel(Dashed(trimmed));
    CamelIgnoresDashing(trimmed, true);
    TitleBeforeTrimIsRedundant(folder);
  }

  // ---------------------------------------------------------------------------
  // Which characters survive

  /** Only ASCII letters and digits survive: no separator, white space or
      other punctuation. */
  lemma {:induction false} ExportedNameIsAlnum(folder: string)
    ensures forall i :: 0 <= i < |ExportedName(folder)| ==> IsAsciiAlnum(ExportedName(folder)[i])
  {
    var scan := Camel(TrimSpace(folder), true);
    ExportedNameIsScan(folder);
    CamelDropsSeparators(TrimSpace(folder), true);
    KeepFacts(scan, IsWordChar);
  }

  /** ASCII lower-casing of a whole string; used to compare names up to case. */
  function LowerAll(s: string): (r: string)
    ensures |r| == |s|
  {
    if s == [] then [] else [Lower(s[0])] + LowerAll(s[1..])
  }

  lemma {:induction false} LowerAllAppend(a: string, b: string)
    ensures LowerAll(a + b) == LowerAll(a) + LowerAll(b)
    decreases |a|
  {
    if a == [] {
      assert a + b == b;
    } else {
      var h := [Lower(a[0])];
      assert (a + b)[0] == a[0];
      assert (a + b)[1..] == a[1..] + b;
      LowerAllAppend(a[1..], b);
      assert LowerAll(a + b) == h + LowerAll(a[1..] + b);
      assert h + (LowerAll(a[1..]) + LowerAll(b)) == (h + LowerAll(a[1..])) + LowerAll(b);
    }
  }

  /** Filtering leaves nothing exactly when no character passes. */
  lemma {:induction false} KeepEmpty(s: string, keep: char -> bool)
    ensures Keep(s, keep) == [] <==> forall i :: 0 <= i < |s| ==> !keep(s[i])
    decreases |s|
  {
    if s != [] {
      KeepEmpty(s[1..], keep);
      assert forall i :: 1 <= i < |s| ==> s[i] == s[1..][i - 1];
    }
  }

  /** White space holds no ASCII letter or digit. */
  lemma {:induction false} KeepAllSpace(s: string)
    requires AllSpace(s)
    ensures Keep(s, IsAsciiAlnum) == []
    decreases |s|
  {
    if s != [] {
      KeepAllSpace(s[1..]);
    }
  }

  /** Up to letter case, the scan followed by the `\w` filter keeps exactly the
      ASCII letters and digits of its input, in order. */
  lemma {:induction false} ScanKeepsAlnum(t: string, atStart: bool)
    ensures LowerAll(StripNonWord(Camel(t, atStart))) == LowerAll(Keep(t, IsAsciiAlnum))
    decreases |t|
  {
    if t != [] {
      var c := t[0];
      if IsSeparator(c) {
        ScanKeepsAlnum(t[1..], true);
        assert !IsAsciiAlnum(c);
        assert Keep(t, IsAsciiAlnum) == [] + Keep(t[1..], IsAsciiAlnum);
        assert [] + Keep(t[1..], IsAsciiAlnum) == Keep(t[1..], IsAsciiAlnum);
        assert Camel(t, atStart) == Camel(t[1..], true);
      } else {
        var c' := if atStart then Upper(c) else c;
        var rest := Camel(t[1..], false);
        ScanKeepsAlnum(t[1..], false);
        assert Camel(t, atStart) == [c'] + rest;
        KeepAppend([c'], rest, IsWordChar);
        KeepAppend([c], t[1..], IsAsciiAlnum);
        assert t == [c] + t[1..];
        LowerAllAppend(Keep([c'], IsWordChar), StripNonWord(rest));
        LowerAllAppend(Keep([c], IsAsciiAlnum), Keep(t[1..], IsAsciiAlnum));
        LowerUpper(c);
      }
    }
  }

  /** The exported name holds the ASCII letters and digits of the folder name,
      in order, and differs from them only in letter case. */
  lemma {:induction false} ExportedIsFoldedAlnum(folder: string)
    ensures LowerAll(ExportedName(folder)) == LowerAll(Keep(folder, IsAsciiAlnum))
    ensures ExportedName(folder) == [] <==> Keep(folder, IsAsciiAlnum) == []
  {
    ExportedNameIsScan(folder);
    ScanKeepsAlnum(TrimSpace(folder), true);
    var lead, trail := TrimSpaceParts(folder);
    KeepAppend(lead + TrimSpace(folder), trail, IsAsciiAlnum);
    KeepAppend(lead, TrimSpace(folder), IsAsciiAlnum);
    KeepAllSpace(lead);
    KeepAllSpace(trail);
    assert Keep(folder, IsAsciiAlnum) == Keep(TrimSpace(folder), IsAsciiAlnum);
  }

  // ---------------------------------------------------------------------------
  // Separators

  /** In the scan, a second separator after a first changes nothing. */
  lemma {:induction false} CamelDoubleSeparator(a: string, x: char, y: char, b: string, atStart: bool)
    requires IsSeparator(x) && IsSeparator(y)
    ensures Camel(a + [x, y] + b, atStart) == Camel(a + [x] + b, atStart)
    decreases |a|
  {
    if a == [] {
      assert ([x, y] + b)[1..] == [y] + b;
      assert ([y] + b)[1..] == b;
      assert ([x] + b)[1..] == b;
    } else {
      assert (a + [x, y] + b)[1..] == a[1..] + [x, y] + b;
      assert (a + [x] + b)[1..] == a[1..] + [x] + b;
      CamelDoubleSeparator(a[1..], x, y, b, true);
      CamelDoubleSeparator(a[1..], x, y, b, false);
    }
  }

  lemma {:induction false} SeparatorIsNotSpace(c: char)
    requires IsSeparator(c)
    ensures !IsSpace(c)
  {
  }

  lemma {:induction false} TrimRightStopsAt(y: char, b: string)
    requires !IsSpace(y)
    ensures TrimRight([y] + b) == [y] + TrimRight(b)
  {
    TrimRightAround([], y, b);
    assert [] + [y] + b == [y] + b;
  }

  lemma {:induction false} RegroupPair(a: string, x: char, y: char, b: string)
    ensures a + [x, y] + b == a + [x] + ([y] + b)
  {
  }

  /** Two adjacent non-space characters stop trimming from both sides. */
  lemma {:induction false} TrimAroundPair(a: string, x: char, y: char, b: string)
    requires !IsSpace(x) && !IsSpace(y)
    ensures TrimSpace(a + [x, y] + b) == TrimLeft(a) + [x, y] + TrimRight(b)
  {
    RegroupPair(a, x, y, b);
    TrimSpaceAround(a, x, [y] + b);
    TrimRightStopsAt(y, b);
    RegroupPair(TrimLeft(a), x, y, TrimRight(b));
  }

  /** A run of two separators contributes exactly what one does. */
  lemma {:induction false} ConsecutiveSeparators(a: string, x: char, y: char, b: string)
    requires IsSeparator(x) && IsSeparator(y)
    ensures ExportedName(a + [x, y] + b) == ExportedName(a + [x] + b)
  {
    ExportedNameIsScan(a + [x, y] + b);
    ExportedNameIsScan(a + [x] + b);
    SeparatorIsNotSpace(x);
    SeparatorIsNotSpace(y);
    TrimAroundPair(a, x, y, b);
    TrimSpaceAround(a, x, b);
    CamelDoubleSeparator(TrimLeft(a), x, y, TrimRight(b), true);
  }

  /** Upper-casing the unexported name's first character gives back the
      exported name whenever that character was not a lower-case letter. */
  lemma {:induction false} UnexportedRoundTrip(exported: string)
    requires exported != [] && !IsAsciiLower(exported[0])
    ensures TitleWord(UnexportedName(exported)) == exported
  {
    assert exported == [exported[0]] + exported[1..];
  }

  /** A piece without separators is title-cased at the start of the name or
      after a separator, and copied verbatim inside a word. */
  lemma {:induction false} CamelWord(w: string, atStart: bool)
    requires forall i :: 0 <= i < |w| ==> !IsSeparator(w[i])
    ensures Camel(w, atStart) == if atStart then TitleWord(w) else w
    decreases |w|
  {
    if w != [] {
      CamelWord(w[1..], false);
      assert w == [w[0]] + w[1..];
    }
  }

  /** A separator cuts the scan into independent parts: what comes after it
      is scanned as a fresh, title-cased piece and appended. */
  lemma {:induction false} CamelThroughSeparator(w: string, c: char, rest: string, atStart: bool)
    requires forall i :: 0 <= i < |w| ==> !IsSeparator(w[i])
    requires IsSeparator(c)
    ensures Camel(w + [c] + rest, atStart) == Camel(w, atStart) + Camel(rest, true)
    decreases |w|
  {
    var s := w + [c] + rest;
    if w == [] {
      assert s[1..] == rest;
    } else {
      assert s[0] == w[0];
      assert s[1..] == w[1..] + [c] + rest;
      CamelThroughSeparator(w[1..], c, rest, false);
      var h := [if atStart then Upper(w[0]) else w[0]];
      assert Camel(s, atStart) == h + (Camel(w[1..], false) + Camel(rest, true));
      assert Camel(w, atStart) == h + Camel(w[1..], false);
    }
  }

  /** A worked example: a hyphen and an underscore both start a new
      title-cased piece. Here and in the examples below, each literal comes
      in through a parameter fixed by `requires`, so that Dafny does not
      evaluate the recursive functions on the literal itself. */
  lemma ExampleModulePath(path: string)
    requires path == "github.com/acme/my-cool_service"
    ensures Derive(path) == Success(Names("my-cool_service", "MyCoolService", "myCoolService", path))
  {
    ExampleFolder(path);
    ExampleExported("my-cool_service");
    ExampleUnexported("MyCoolService");
  }

  lemma ExampleFolder(path: string)
    requires path == "github.com/acme/my-cool_service"
    ensures FolderName(path) == "my-cool_service"
  {
    SplitPathUnique(path, "github.com/acme/", "my-cool_service");
  }

  lemma ExampleUnexported(exported: string)
    requires exported == "MyCoolService"
    ensures UnexportedName(exported) == "myCoolService"
  {
  }

  lemma ExampleExported(folder: string)
    requires folder == "my-cool_service"
    ensures ExportedName(folder) == "MyCoolService"
  {
    ExampleTrimmed(folder);
    ExportedNameIsScan(folder);
    ExampleScan(folder);
    ExampleStripped("MyCoolService");
  }

  lemma ExampleTrimmed(folder: string)
    requires folder == "my-cool_service"
    ensures TrimSpace(folder) == folder
  {
    TrimSpaceFixed(folder);
  }

  lemma ExampleStripped(s: string)
    requires s == "MyCoolService"
    ensures StripNonWord(s) == s
  {
    assert forall i :: 0 <= i < |s| ==> IsAsciiAlnum(s[i]);
    KeepFacts(s, IsWordChar);
  }

  lemma ExampleScan(folder: string)
    requires folder == "my-cool_service"
    ensures Camel(folder, true) == "MyCoolService"
  {
    var head, tail := "my", "cool_service";
    ExampleScanTail();
    assert folder == head + ['-'] + tail;
    ExampleWord(head, "My");
    CamelThroughSeparator(head, '-', tail, true);
  }

  lemma ExampleScanTail()
    ensures Camel("cool_service", true) == "CoolService"
  {
    assert "cool_service" == "cool" + ['_'] + "service";
    ExampleWord("cool", "Cool");
    ExampleWord("service", "Service");
    CamelThroughSeparator("cool", '_', "service", true);
  }

  /** A lower-case word is scanned into its title-cased form. */
  lemma ExampleWord(w: string, titled: string)
    requires w != [] && forall i :: 0 <= i < |w| ==> 'a' <= w[i] <= 'z'
    requires titled == [(w[0] as int - 32) as char] + w[1..]
    ensures forall i :: 0 <= i < |w| ==> !IsSeparator(w[i])
    ensures Camel(w, true) == titled
  {
    CamelWord(w, true);
  }

  /** A last path element made only of separators leaves no exported name:
      the code would panic, the model fails. */
  lemma ExampleSeparatorsOnly(path: string)
    requires path == "github.com/acme/---"
    ensures Derive(path).Failure?
  {
    ExampleSeparatorsFolder(path);
    var folder := FolderName(path);
    assert forall i :: 0 <= i < |folder| ==> folder[i] == '-';
  }

  lemma ExampleSeparatorsFolder(path: string)
    requires path == "github.com/acme/---"
    ensures FolderName(path) == "---"
  {
    SplitPathUnique(path, "github.com/acme/", "---");
  }
}
