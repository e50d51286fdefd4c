/**
 * The pieces of Go's `strings`, `path/filepath` and `regexp` packages that the
 * generator relies on, over `string` = `seq<char>` (one `char` per rune).
 */
module GoStrings {

  /** `unicode.IsSpace`: the ASCII white space characters and the Unicode
      White_Space code points that Go's `strings.TrimSpace` strips. */
  predicate IsSpace(c: char) {
    var n := c as int;
    n == 0x09 || n == 0x0A || n == 0x0B || n == 0x0C || n == 0x0D || n == 0x20
    || n == 0x85 || n == 0xA0 || n == 0x1680 || (0x2000 <= n <= 0x200A)
    || n == 0x2028 || n == 0x2029 || n == 0x202F || n == 0x205F || n == 0x3000
  }

  lemma SpaceIsNotAlnum(c: char)
    ensures IsSpace(c) ==> !IsAsciiAlnum(c)
  {
  }

  predicate AllSpace(s: string) {
    forall i :: 0 <= i < |s| ==> IsSpace(s[i])
  }

  predicate IsAsciiLower(c: char) { 'a' <= c <= 'z' }

  predicate IsAsciiUpper(c: char) { 'A' <= c <= 'Z' }

  predicate IsAsciiAlnum(c: char) {
    IsAsciiLower(c) || IsAsciiUpper(c) || '0' <= c <= '9'
  }

  /** The class `\w` of Go's RE2 syntax: `[0-9A-Za-z_]`, ASCII only. */
  predicate IsWordChar(c: char) {
    IsAsciiAlnum(c) || c == '_'
  }

  /** ASCII upper-casing of one character; every other character is kept. */
  function Upper(c: char): (u: char)
    ensures IsAsciiAlnum(u) <==> IsAsciiAlnum(c)
    ensures !IsAsciiLower(u)
    ensures IsAsciiLower(c) ==> IsAsciiUpper(u)
    ensures !IsAsciiLower(c) ==> u == c
  {
    if IsAsciiLower(c) then (c as int - 32) as char else c
  }

  /** ASCII lower-casing of one character; every other character is kept. */
  function Lower(c: char): (l: char)
    ensures IsAsciiAlnum(l) <==> IsAsciiAlnum(c)
    ensures !IsAsciiUpper(l)
    ensures IsAsciiUpper(c) ==> IsAsciiLower(l)
    ensures !IsAsciiUpper(c) ==> l == c
  {
    if IsAsciiUpper(c) then (c as int + 32) as char else c
  }

  lemma LowerUpper(c: char)
    ensures Lower(Upper(c)) == Lower(c)
  {
  }

  /** The characters of `s` that satisfy `keep`, in order. */
  function Keep(s: string, keep: char -> bool): (r: string)
    ensures |r| <= |s|
  {
    if s == [] then []
    else (if keep(s[0]) then [s[0]] else []) + Keep(s[1..], keep)
  }

  /** Every kept character satisfies the filter and comes from the input; an
      input that passes the filter everywhere is kept whole. */
  lemma {:induction false} KeepFacts(s: string, keep: char -> bool)
    ensures forall i :: 0 <= i < |Keep(s, keep)| ==> keep(Keep(s, keep)[i]) && Keep(s, keep)[i] in s
    ensures (forall i :: 0 <= i < |s| ==> keep(s[i])) ==> Keep(s, keep) == s
    decreases |s|
  {
    if s != [] {
      KeepFacts(s[1..], keep);
      assert s == [s[0]] + s[1..];
    }
  }

  lemma {:induction false} KeepAppend(a: string, b: string, keep: char -> bool)
    ensures Keep(a + b, keep) == Keep(a, keep) + Keep(b, keep)
    decreases |a|
  {
    if a == [] {
      assert a + b == b;
    } else {
      var h := if keep(a[0]) then [a[0]] else [];
      assert (a + b)[0] == a[0];
      assert (a + b)[1..] == a[1..] + b;
      KeepAppend(a[1..], b, keep);
      assert Keep(a + b, keep) == h + Keep(a[1..] + b, keep);
      assert Keep(a, keep) == h + Keep(a[1..], keep);
      assert h + (Keep(a[1..], keep) + Keep(b, keep)) == (h + Keep(a[1..], keep)) + Keep(b, keep);
    }
  }

  /** `regexp.MustCompile(`[^\w]`).ReplaceAllString(s, "")`. */
  function StripNonWord(s: string): (r: string)
    ensures forall i :: 0 <= i < |r| ==> IsWordChar(r[i]) && r[i] in s
    ensures (forall i :: 0 <= i < |s| ==> IsWordChar(s[i])) ==> r == s
  {
    KeepFacts(s, IsWordChar);
    Keep(s, IsWordChar)
  }

  /** `strings.TrimLeftFunc(s, unicode.IsSpace)`. */
  function TrimLeft(s: string): (r: string)
    ensures |r| <= |s|
    ensures r == s[|s| - |r|..]
    ensures r == [] || !IsSpace(r[0])
  {
    if s != [] && IsSpace(s[0]) then TrimLeft(s[1..]) else s
  }

  lemma {:induction false} TrimLeftRemovesSpace(s: string)
    ensures AllSpace(s[..|s| - |TrimLeft(s)|])
    decreases |s|
  {
    if s != [] && IsSpace(s[0]) {
      TrimLeftRemovesSpace(s[1..]);
      var k := |s| - |TrimLeft(s)|;
      assert forall i :: 1 <= i < k ==> s[..k][i] == s[1..][..k - 1][i - 1];
    }
  }

  /** `strings.TrimRightFunc(s, unicode.IsSpace)`. */
  function TrimRight(s: string): (r: string)
    ensures |r| <= |s|
    ensures r == s[..|r|]
    ensures r == [] || !IsSpace(r[|r| - 1])
  {
    if s != [] && IsSpace(s[|s| - 1]) then TrimRight(s[..|s| - 1]) else s
  }

  lemma {:induction false} TrimRightRemovesSpace(s: string)
    ensures AllSpace(s[|TrimRight(s)|..])
    decreases |s|
  {
    if s != [] && IsSpace(s[|s| - 1]) {
      TrimRightRemovesSpace(s[..|s| - 1]);
      var k := |TrimRight(s)|;
      assert forall i :: k <= i < |s| - 1 ==> s[i] == s[..|s| - 1][i];
    }
  }

  /** `strings.TrimSpace`. */
  function TrimSpace(s: string): (r: string)
    ensures |r| <= |s|
    ensures r == [] || (!IsSpace(r[0]) && !IsSpace(r[|r| - 1]))
  {
    TrimRight(TrimLeft(s))
  }

  /** A string that neither starts nor ends with white space is its own trim. */
  lemma {:induction false} TrimSpaceFixed(s: string)
    requires s == [] || (!IsSpace(s[0]) && !IsSpace(s[|s| - 1]))
    ensures TrimSpace(s) == s
  {
    assert TrimLeft(s) == s;
  }

  /** Trimming twice trims no more than trimming once. */
  lemma {:induction false} TrimSpaceIdempotent(s: string)
    ensures TrimSpace(TrimSpace(s)) == TrimSpace(s)
  {
    var t := TrimSpace(s);
    assert t == [] || (!IsSpace(t[0]) && !IsSpace(t[|t| - 1]));
    TrimSpaceFixed(t);
  }

  lemma SplitAt(x: string, k: nat)
    requires k <= |x|
    ensures x == x[..k] + x[k..]
  {
  }

  /** TrimSpace removes white space from the two ends and nothing else. */
  lemma {:induction false} TrimSpaceParts(s: string) returns (lead: string, trail: string)
    ensures s == lead + TrimSpace(s) + trail
    ensures AllSpace(lead) && AllSpace(trail)
  {
    var l := TrimLeft(s);
    var r := TrimRight(l);
    TrimLeftRemovesSpace(s);
    TrimRightRemovesSpace(l);
    lead, trail := s[..|s| - |l|], l[|r|..];
    SplitAt(s, |s| - |l|);
    SplitAt(l, |r|);
    Associate(lead, r, trail);
  }

  lemma Associate(x: string, y: string, z: string)
    ensures x + (y + z) == x + y + z
  {
  }

  /** Trimming leaves nothing exactly when the string is all white space. */
  lemma {:induction false} TrimSpaceEmpty(s: string)
    ensures TrimSpace(s) == [] <==> AllSpace(s)
  {
    var lead, trail := TrimSpaceParts(s);
    if TrimSpace(s) == [] {
      assert s == lead + trail;
      forall i | 0 <= i < |s|
        ensures IsSpace(s[i])
      {
        if i < |lead| {
          assert s[i] == lead[i];
        } else {
          assert s[i] == trail[i - |lead|];
        }
      }
    } else {
      var t := TrimSpace(s);
      assert s[|lead|] == t[0];
    }
  }

  /** `strings.Replace(s, string(from), string(to), -1)` for one-character
      arguments. */
  function ReplaceChar(s: string, from: char, to: char): (r: string)
    ensures |r| == |s|
    ensures forall i :: 0 <= i < |s| ==> r[i] == (if s[i] == from then to else s[i])
  {
    if s == [] then [] else [if s[0] == from then to else s[0]] + ReplaceChar(s[1..], from, to)
  }

  /** `strings.Join(pieces, string(sep))`. */
  function Join(pieces: seq<string>, sep: char): (r: string)
  {
    if |pieces| == 0 then []
    else if |pieces| == 1 then pieces[0]
    else pieces[0] + [sep] + Join(pieces[1..], sep)
  }

  /** `strings.Split(s, string(sep))`: the maximal `sep`-free pieces between
      separators, empty ones included; never an empty list. */
  function Split(s: string, sep: char): (r: seq<string>)
    ensures |r| >= 1
    ensures forall k :: 0 <= k < |r| ==> sep !in r[k]
  {
    if s == [] then [[]]
    else
      var rest := Split(s[1..], sep);
      if s[0] == sep then [[]] + rest
      else [[s[0]] + rest[0]] + rest[1..]
  }

  /** Joining the pieces with the separator gives back the split string. */
  lemma {:induction false} JoinSplit(s: string, sep: char)
    ensures Join(Split(s, sep), sep) == s
    decreases |s|
  {
    if s != [] {
      var rest := Split(s[1..], sep);
      JoinSplit(s[1..], sep);
      if s[0] == sep {
        assert ([[]] + rest)[1..] == rest;
      } else {
        var r := [[s[0]] + rest[0]] + rest[1..];
        assert r[1..] == rest[1..];
        if |rest| > 1 {
          assert Join(rest, sep) == rest[0] + [sep] + Join(rest[1..], sep);
        }
      }
      assert s == [s[0]] + s[1..];
    }
  }

  lemma {:induction false} SplitPrefix(w: string, t: string, sep: char)
    requires sep !in w
    ensures Split(w + t, sep) == [w + Split(t, sep)[0]] + Split(t, sep)[1..]
    decreases |w|
  {
    var st := Split(t, sep);
    if w == [] {
      assert w + t == t;
      assert w + st[0] == st[0];
      assert st == [st[0]] + st[1..];
    } else {
      var s := w + t;
      assert s[0] == w[0] && s[0] != sep by { assert w[0] in w; }
      assert s[1..] == w[1..] + t;
      SplitPrefix(w[1..], t, sep);
      var rest := Split(s[1..], sep);
      assert rest[0] == w[1..] + st[0] && rest[1..] == st[1..];
      assert Split(s, sep) == [[s[0]] + rest[0]] + rest[1..];
      assert [w[0]] + (w[1..] + st[0]) == w + st[0];
    }
  }

  /** Splitting undoes joining when no piece contains the separator. */
  lemma {:induction false} SplitJoin(pieces: seq<string>, sep: char)
    requires |pieces| >= 1
    requires forall k :: 0 <= k < |pieces| ==> sep !in pieces[k]
    ensures Split(Join(pieces, sep), sep) == pieces
    decreases |pieces|
  {
    if |pieces| == 1 {
      SplitPrefix(pieces[0], [], sep);
      assert pieces[0] + [] == pieces[0];
      assert Split([], sep) == [[]];
      assert pieces == [pieces[0]];
    } else {
      var t := Join(pieces[1..], sep);
      SplitJoin(pieces[1..], sep);
      assert Join(pieces, sep) == pieces[0] + ([sep] + t);
      SplitPrefix(pieces[0], [sep] + t, sep);
      assert ([sep] + t)[1..] == t;
      assert Split([sep] + t, sep) == [[]] + pieces[1..];
      assert pieces[0] + [] == pieces[0];
      assert pieces == [pieces[0]] + pieces[1..];
    }
  }

  /** `filepath.Split` with `/` as the separator: the directory part keeps its
      trailing slash, the file part is what follows the last slash. */
  function SplitPath(p: string): (r: (string, string))
    ensures r.0 + r.1 == p
    ensures '/' !in r.1
    ensures r.0 == [] || r.0[|r.0| - 1] == '/'
    decreases |p|
  {
    if p == [] then ([], [])
    else if p[|p| - 1] == '/' then (p, [])
    else
      var (dir, file) := SplitPath(p[..|p| - 1]);
      assert p == p[..|p| - 1] + [p[|p| - 1]];
      (dir, file + [p[|p| - 1]])
  }

  lemma LastOfConcat(a: string, b: string)
    ensures b != [] ==> (a + b)[|a + b| - 1] == b[|b| - 1] && b[|b| - 1] in b
    ensures b == [] ==> a + b == a
  {
  }

  /** The three properties in SplitPath's contract single out its result. */
  lemma {:induction false} SplitPathUnique(p: string, dir: string, file: string)
    requires dir + file == p
    requires '/' !in file
    requires dir == [] || dir[|dir| - 1] == '/'
    ensures SplitPath(p) == (dir, file)
    decreases |p|
  {
    if p == [] {
    } else if p[|p| - 1] == '/' {
      LastOfConcat(dir, file);
      assert dir == p;
    } else {
      LastOfConcat(dir, file);
      assert file != [];
      var file' := file[..|file| - 1];
      assert dir + file' == p[..|p| - 1];
      assert forall k :: 0 <= k < |file'| ==> file'[k] == file[k] && file[k] in file;
      SplitPathUnique(p[..|p| - 1], dir, file');
      assert file == file' + [p[|p| - 1]];
    }
  }

  predicate OccursAt(s: string, pat: string, i: int) {
    0 <= i && i + |pat| <= |s| && s[i..i + |pat|] == pat
  }

  /** `pat` occurs in `s`, found by sliding a window along `s` from the left. */
  predicate Occurs(s: string, pat: string)
    decreases |s|
  {
    |s| >= |pat| && (OccursAt(s, pat, 0) || (s != [] && Occurs(s[1..], pat)))
  }

  /** The sliding window finds the pattern exactly when it occurs at some index. */
  lemma {:induction false} OccursSomewhere(s: string, pat: string)
    ensures Occurs(s, pat) <==> exists i :: OccursAt(s, pat, i)
    decreases |s|
  {
    if exists i :: OccursAt(s, pat, i) {
      var i :| OccursAt(s, pat, i);
      if i > 0 {
        var t := s[1..];
        assert t[i - 1..i - 1 + |pat|] == s[i..i + |pat|];
        assert OccursAt(t, pat, i - 1);
        OccursSomewhere(t, pat);
      }
    }
    if Occurs(s, pat) && !OccursAt(s, pat, 0) {
      var t := s[1..];
      OccursSomewhere(t, pat);
      var i :| OccursAt(t, pat, i);
      assert s[i + 1..i + 1 + |pat|] == t[i..i + |pat|];
      assert OccursAt(s, pat, i + 1);
    }
  }

  /** `strings.Replace(s, pat, "", -1)` for a non-empty `pat`: deletes the
      leftmost non-overlapping occurrences, scanning left to right. The
      string is left unchanged exactly when the pattern does not occur in it. */
  function DeleteAll(s: string, pat: string): (r: string)
    requires pat != []
    ensures Occurs(s, pat) ==> |r| < |s|
    ensures !Occurs(s, pat) ==> r == s
    decreases |s|
  {
    if |s| < |pat| then s
    else if s[..|pat|] == pat then
      assert OccursAt(s, pat, 0);
      DeleteAll(s[|pat|..], pat)
    else
      OccursPastFirst(s, pat);
      var rest := DeleteAll(s[1..], pat);
      assert s == [s[0]] + s[1..];
      [s[0]] + rest
  }

  /** `pat` occurs at `i` and nowhere before. */
  predicate LeftmostAt(s: string, pat: string, i: nat) {
    OccursAt(s, pat, i) && forall j :: 0 <= j < i ==> !OccursAt(s, pat, j)
  }

  /** Which characters are deleted: everything before the leftmost
      occurrence is kept, that occurrence goes, and the scan resumes right
      after it. With `!Occurs(s, pat) ==> DeleteAll(s, pat) == s` this
      determines the result on every input. */
  lemma {:induction false} DeleteAllFirst(s: string, pat: string, i: nat)
    requires pat != [] && LeftmostAt(s, pat, i)
    ensures DeleteAll(s, pat) == s[..i] + DeleteAll(s[i + |pat|..], pat)
    decreases i, 1
  {
    if i == 0 {
      DeleteAllHit(s, pat);
      assert s[..0] + DeleteAll(s[|pat|..], pat) == DeleteAll(s[|pat|..], pat);
    } else {
      DeleteAllFirstLater(s, pat, i);
    }
  }

  /** The inductive step: a character before the leftmost occurrence is kept. */
  lemma {:induction false} DeleteAllFirstLater(s: string, pat: string, i: nat)
    requires pat != [] && 0 < i && LeftmostAt(s, pat, i)
    ensures DeleteAll(s, pat) == s[..i] + DeleteAll(s[i + |pat|..], pat)
    decreases i, 0
  {
    var t := s[1..];
    OccursInTail(s, pat, i);
    DeleteAllSkip(s, pat);
    DeleteAllFirst(t, pat, i - 1);
    ConsPrefix(s, i, DeleteAll(s, pat), DeleteAll(t, pat), DeleteAll(s[i + |pat|..], pat));
  }

  lemma ConsPrefix(s: string, i: nat, whole: string, tail: string, rest: string)
    requires 0 < i <= |s|
    requires whole == [s[0]] + tail && tail == s[1..][..i - 1] + rest
    ensures whole == s[..i] + rest
  {
    assert s[..i] == [s[0]] + s[1..][..i - 1];
  }

  /** Dropping the first character moves every occurrence one place left. */
  lemma OccursInTail(s: string, pat: string, i: nat)
    requires 0 < i && LeftmostAt(s, pat, i)
    ensures LeftmostAt(s[1..], pat, i - 1)
    ensures |s| >= |pat| && !OccursAt(s, pat, 0)
    ensures s[1..][i - 1 + |pat|..] == s[i + |pat|..]
  {
    var t := s[1..];
    assert !OccursAt(s, pat, 0);
    assert t[i - 1..i - 1 + |pat|] == s[i..i + |pat|];
    forall j | 0 <= j < i - 1
      ensures !OccursAt(t, pat, j)
    {
      assert !OccursAt(s, pat, j + 1);
      if j + |pat| <= |t| {
        assert t[j..j + |pat|] == s[j + 1..j + 1 + |pat|];
      }
    }
  }

  /** Where the pattern starts the string, it is deleted there. */
  lemma DeleteAllHit(s: string, pat: string)
    requires pat != [] && OccursAt(s, pat, 0)
    ensures DeleteAll(s, pat) == DeleteAll(s[|pat|..], pat)
  {
    assert s[..|pat|] == pat;
  }

  /** Where the pattern does not start the string, its first character is kept. */
  lemma {:induction false} DeleteAllSkip(s: string, pat: string)
    requires pat != [] && |s| >= |pat| && !OccursAt(s, pat, 0)
    ensures DeleteAll(s, pat) == [s[0]] + DeleteAll(s[1..], pat)
  {
    assert s[..|pat|] != pat;
  }

  /** Where the pattern does not start at the first character, it occurs in
      the string exactly when it occurs in the rest. */
  lemma {:induction false} OccursPastFirst(s: string, pat: string)
    requires pat != [] && |s| >= |pat| && s[..|pat|] != pat
    ensures Occurs(s, pat) <==> Occurs(s[1..], pat)
  {
    assert !OccursAt(s, pat, 0);
  }


  /** A character that cannot be part of the pattern splits the deletion in two:
      no occurrence straddles it. */
  lemma {:induction false} DeleteAllAround(a: string, c: char, b: string, pat: string)
    requires pat != [] && c !in pat
    ensures DeleteAll(a + [c] + b, pat) == DeleteAll(a, pat) + [c] + DeleteAll(b, pat)
    decreases |a|
  {
    if |a| < |pat| {
      if a == [] {
        DeleteAllAtSeparator(c, b, pat);
      } else {
        DeleteAllAround(a[1..], c, b, pat);
        DeleteAllShortStep(a, c, b, pat);
      }
    } else if a[..|pat|] == pat {
      var s := a + [c] + b;
      assert s[..|pat|] == a[..|pat|];
      assert s[|pat|..] == a[|pat|..] + [c] + b;
      DeleteAllAround(a[|pat|..], c, b, pat);
    } else {
      DeleteAllAround(a[1..], c, b, pat);
      DeleteAllKeepStep(a, c, b, pat);
    }
  }

  lemma {:induction false} DeleteAllAtSeparator(c: char, b: string, pat: string)
    requires pat != [] && c !in pat
    ensures DeleteAll([] + [c] + b, pat) == DeleteAll([], pat) + [c] + DeleteAll(b, pat)
  {
    var s := [c] + b;
    assert [] + [c] + b == s;
    if |s| >= |pat| {
      assert pat[0] in pat;
      assert s[..|pat|][0] == c;
    }
    assert s[1..] == b;
  }

  lemma {:induction false} DeleteAllShortStep(a: string, c: char, b: string, pat: string)
    requires pat != [] && c !in pat && a != [] && |a| < |pat|
    requires DeleteAll(a[1..] + [c] + b, pat) == DeleteAll(a[1..], pat) + [c] + DeleteAll(b, pat)
    ensures DeleteAll(a + [c] + b, pat) == DeleteAll(a, pat) + [c] + DeleteAll(b, pat)
  {
    var s := a + [c] + b;
    var db := DeleteAll(b, pat);
    ShortUnchanged(a, pat);
    ShortUnchanged(a[1..], pat);
    ConsAround(a, c, b);
    if |s| >= |pat| {
      WindowHoldsSeparator(a, c, b, pat);
      DeleteAllNoMatch(s, pat);
      Regroup(a, c, db);
    } else {
      ShortUnchanged(s, pat);
      ShortUnchanged(b, pat);
    }
  }

  /** A string shorter than the pattern is left as it is. */
  lemma {:induction false} ShortUnchanged(x: string, pat: string)
    requires pat != [] && |x| < |pat|
    ensures DeleteAll(x, pat) == x
  {
  }

  lemma {:induction false} Regroup(a: string, c: char, d: string)
    requires a != []
    ensures [a[0]] + (a[1..] + [c] + d) == a + [c] + d
  {
    assert a == [a[0]] + a[1..];
  }

  /** A window that covers a character outside the pattern is not the pattern. */
  lemma {:induction false} WindowHoldsSeparator(a: string, c: char, b: string, pat: string)
    requires c !in pat && |a| < |pat| <= |a + [c] + b|
    ensures (a + [c] + b)[..|pat|] != pat
  {
    assert pat[|a|] in pat;
    assert (a + [c] + b)[..|pat|][|a|] == c;
  }

  lemma {:induction false} DeleteAllKeepStep(a: string, c: char, b: string, pat: string)
    requires pat != [] && |a| >= |pat| && a[..|pat|] != pat
    requires DeleteAll(a[1..] + [c] + b, pat) == DeleteAll(a[1..], pat) + [c] + DeleteAll(b, pat)
    ensures DeleteAll(a + [c] + b, pat) == DeleteAll(a, pat) + [c] + DeleteAll(b, pat)
  {
    ConsAround(a, c, b);
    PrefixOfConcat(a, [c] + b, |pat|);
    DeleteAllNoMatch(a, pat);
    DeleteAllNoMatch(a + [c] + b, pat);
    Associate([a[0]], DeleteAll(a[1..], pat) + [c], DeleteAll(b, pat));
    Associate([a[0]], DeleteAll(a[1..], pat), [c]);
  }

  lemma {:induction false} ConsAround(a: string, c: char, b: string)
    requires a != []
    ensures a + [c] + b == a + ([c] + b)
    ensures (a + [c] + b)[0] == a[0] && (a + [c] + b)[1..] == a[1..] + [c] + b
  {
  }

  lemma {:induction false} PrefixOfConcat(a: string, b: string, k: nat)
    requires k <= |a|
    ensures (a + b)[..k] == a[..k]
    ensures a != [] ==> (a + b)[0] == a[0]
  {
  }

  /** Where the pattern does not start, the first character is kept. */
  lemma {:induction false} DeleteAllNoMatch(s: string, pat: string)
    requires pat != [] && |s| >= |pat| && s[..|pat|] != pat
    ensures DeleteAll(s, pat) == [s[0]] + DeleteAll(s[1..], pat)
  {
  }
}
