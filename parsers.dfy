/**
  Manifest parsing: picking the dialect from the file name and extracting a
  sorted, duplicate-free list of package names with its ecosystem tag.
  Models backend/app/parsers.py.
 */
module Parsers {
  import opened Wrappers
  import opened Text
  import opened JsonValue

  /** The three manifest dialects, in the order in which their suffixes are tried. */
  datatype ManifestKind = Requirements | PackageLock | Pyproject

  /** The file name suffix of a dialect, which is also its `type` in the output. */
  function KindName(k: ManifestKind): string {
    match k
    case Requirements => "requirements.txt"
    case PackageLock => "package-lock.json"
    case Pyproject => "pyproject.toml"
  }

  /** Position of a dialect in the order of suffix tests. */
  function Rank(k: ManifestKind): nat {
    match k
    case Requirements => 0
    case PackageLock => 1
    case Pyproject => 2
  }

  function EcosystemOf(k: ManifestKind): string {
    if k == PackageLock then "npm" else "PyPI"
  }

  const UnsupportedError: string := "Unsupported file type."
  const SupportedNames: seq<string> := ["requirements.txt", "pyproject.toml", "package-lock.json"]
  const UnsupportedHint: string := "Upload requirements.txt, pyproject.toml, or package-lock.json"

  /** What `detect_and_extract_packages` produces. `Raised` stands for an exception
      (a lockfile that is not valid JSON or not shaped as expected) escaping the call. */
  datatype Extraction =
    | Unsupported(error: string, supported: seq<string>, hint: string)
    | NothingFound(error: string)
    | Raised(reason: string)
    | Extracted(kind: ManifestKind, ecosystem: string, packages: seq<string>)
  {
    /** The `ok` field of the returned dictionary. */
    predicate Ok() {
      Extracted?
    }
  }

  /** The dialect of a file name: the first, in rank order, whose name is a suffix
      of the lower-cased file name; none when no suffix matches. */
  function Detect(filename: string): (k: Option<ManifestKind>)
    ensures k.Some? ==> EndsWith(Lower(filename), KindName(k.value))
    ensures k.Some? ==> forall k' :: Rank(k') < Rank(k.value) ==> !EndsWith(Lower(filename), KindName(k'))
    ensures k.None? <==> forall k' :: !EndsWith(Lower(filename), KindName(k'))
  {
    var fn := Lower(filename);
    if EndsWith(fn, "requirements.txt") then Some(Requirements)
    else if EndsWith(fn, "package-lock.json") then Some(PackageLock)
    else if EndsWith(fn, "pyproject.toml") then Some(Pyproject)
    else None
  }

  /** The characters at which a name is cut off from its version constraint. */
  predicate IsConstraintChar(c: char) {
    c == '<' || c == '>' || c == '=' || c == '!' || c == '~'
  }

  /** The characters that mark a pyproject line as a dependency declaration (`!` is not one). */
  predicate IsComparisonChar(c: char) {
    c == '<' || c == '>' || c == '=' || c == '~'
  }

  predicate IsDoubleQuote(c: char) { c == '"' }

  predicate IsSingleQuote(c: char) { c == '\'' }

  predicate IsOpenBracket(c: char) { c == '[' }

  /** The characters before which a pyproject name ends: an operator, or the `[` of extras. */
  predicate IsNameEnd(c: char) { c == '[' || IsConstraintChar(c) }

  /** `s.strip('"').strip("'")`. */
  function Unquote(s: string): string {
    StripBy(StripBy(s, IsDoubleQuote), IsSingleQuote)
  }

  /** The names a line rule accepts from the lines, as a set. */
  function Collect(lines: seq<string>, rule: string -> Option<string>): set<string> {
    set i | 0 <= i < |lines| && rule(lines[i]).Some? :: rule(lines[i]).value
  }

  lemma CollectExtend(lines: seq<string>, i: nat, rule: string -> Option<string>)
    requires i < |lines|
    ensures Collect(lines[..i + 1], rule)
            == Collect(lines[..i], rule) + (if rule(lines[i]).Some? then {rule(lines[i]).value} else {})
  {
    var before, after := lines[..i], lines[..i + 1];
    assert forall j :: 0 <= j < i ==> after[j] == before[j];
    assert after[i] == lines[i];
  }

  // ---------------------------------------------------------------------------
  // requirements.txt

  /** Cutting a stripped, non-empty line at its first operator character leaves nothing
      exactly when the line starts with one, and otherwise a prefix of the line. */
  lemma RequirementCut(s: string)
    requires s != [] && IsStripped(s)
    ensures var name := Strip(PrefixBefore(s, IsConstraintChar));
            && (name == [] <==> IsConstraintChar(s[0]))
            && (name != [] ==> name <= s)
            && forall c :: c in name ==> !IsConstraintChar(c)
  {
    var cut := PrefixBefore(s, IsConstraintChar);
    assert cut != [] ==> cut[0] == s[0] && !IsSpace(cut[0]);
    assert IsConstraintChar(s[0]) <==> cut == [];
  }

  /** The package name one requirements line contributes, if any. */
  function RequirementName(line: string): (r: Option<string>)
    ensures r.Some? <==> (var s := Strip(line); s != [] && s[0] != '#' && !IsConstraintChar(s[0]))
    ensures r.Some? ==> r.value != [] && IsStripped(r.value) && r.value <= Strip(line)
    ensures r.Some? ==> forall c :: c in r.value ==> !IsConstraintChar(c)
  {
    var s := Strip(line);
    if s == [] || s[0] == '#' then None
    else
      var name := Strip(PrefixBefore(s, IsConstraintChar));
      RequirementCut(s);
      if name != [] then Some(name) else None
  }

  /** `_parse_requirements_txt`: the names of the requirement lines, sorted, without duplicates. */
  method ParseRequirements(text: string) returns (pkgs: seq<string>)
    ensures StrictlySorted(pkgs)
    ensures Elems(pkgs) == Collect(SplitLines(text), RequirementName)
  {
    var lines := SplitLines(text);
    var found: seq<string> := [];
    for i := 0 to |lines|
      invariant Elems(found) == Collect(lines[..i], RequirementName)
    {
      CollectExtend(lines, i, RequirementName);
      var line := Strip(lines[i]);
      if line == [] || line[0] == '#' {
        assert RequirementName(lines[i]).None?;
        continue;
      }
      var name := Strip(PrefixBefore(line, IsConstraintChar));
      assert RequirementName(lines[i]) == if name != [] then Some(name) else None;
      if name != [] {
        ElemsAppend(found, name);
        found := found + [name];
      }
    }
    assert lines[..|lines|] == lines;
    pkgs := SortedSet(Elems(found));
  }

  /** A non-empty stripped name that does not start with `#` and holds no operator
      character is a requirement line that yields exactly itself. */
  lemma NameIsOwnRequirement(n: string)
    requires n != [] && IsStripped(n) && n[0] != '#'
    requires forall c :: c in n ==> !IsConstraintChar(c)
    ensures RequirementName(n) == Some(n)
  {
    assert Strip(n) == n;
    assert PrefixBefore(n, IsConstraintChar) == n;
  }

  /** The name a requirement line yields is the stripped text before the first operator
      character of the stripped line, and no other string is. */
  lemma RequirementNameIsCut(line: string)
    ensures RequirementName(line).Some? ==>
              IsStrippedCut(RequirementName(line).value, Strip(line), IsConstraintChar)
    ensures forall n :: RequirementName(line).Some? && IsStrippedCut(n, Strip(line), IsConstraintChar)
                        ==> n == RequirementName(line).value
  {
    if RequirementName(line).Some? {
      var s := Strip(line);
      StrippedCut(s, IsConstraintChar);
      forall n | IsStrippedCut(n, s, IsConstraintChar) ensures n == RequirementName(line).value {
        StrippedCutUnique(n, RequirementName(line).value, s, IsConstraintChar);
      }
    }
  }

  /** A name followed by a version constraint is a requirement line that yields exactly
      that name: `flask==2.0` yields `flask`. */
  lemma ConstrainedNameIsOwnRequirement(n: string, rest: string)
    requires n != [] && IsStripped(n) && n[0] != '#'
    requires forall c :: c in n ==> !IsConstraintChar(c)
    requires rest != [] && IsConstraintChar(rest[0]) && !IsSpace(rest[|rest| - 1])
    ensures RequirementName(n + rest) == Some(n)
  {
    var line := n + rest;
    assert line[0] == n[0] && line[|line| - 1] == rest[|rest| - 1];
    assert Strip(line) == line;
    assert forall k :: 0 <= k < |n| ==> n[k] in n;
    PrefixBeforeStops(n, rest, IsConstraintChar);
  }

  /** A name extracted from a line without line breaks has none either, and does not
      start with `#`. */
  lemma ExtractedNameIsPlain(line: string)
    requires NoLineBreak(line)
    ensures RequirementName(line).Some? ==>
              NoLineBreak(RequirementName(line).value) && RequirementName(line).value[0] != '#'
  {
    if RequirementName(line).Some? {
      var n := RequirementName(line).value;
      var s := Strip(line);
      forall k | 0 <= k < |n| ensures !IsLineBreak(n[k]) {
        assert n[k] == s[k];
        assert s[k] in line;
      }
      assert n[0] == s[0];
    }
  }

  /** Every name the requirement lines yield is a single line that yields itself. */
  lemma ParsedNamesArePlain(lines: seq<string>, pkgs: seq<string>)
    requires forall i :: 0 <= i < |lines| ==> NoLineBreak(lines[i])
    requires Elems(pkgs) == Collect(lines, RequirementName)
    ensures forall i :: 0 <= i < |pkgs| ==>
              pkgs[i] != [] && NoLineBreak(pkgs[i]) && RequirementName(pkgs[i]) == Some(pkgs[i])
  {
    forall i | 0 <= i < |pkgs|
      ensures pkgs[i] != [] && NoLineBreak(pkgs[i]) && RequirementName(pkgs[i]) == Some(pkgs[i])
    {
      assert pkgs[i] in Collect(lines, RequirementName);
      var j :| 0 <= j < |lines| && RequirementName(lines[j]) == Some(pkgs[i]);
      ExtractedNameIsPlain(lines[j]);
      NameIsOwnRequirement(pkgs[i]);
    }
  }

  /** A list of requirement names joined one per line parses back to the same names,
      so the sorted list `ParseRequirements` returns is also what it returns on its own output. */
  lemma {:induction false} RequirementsIdempotent(text: string, pkgs: seq<string>)
    requires StrictlySorted(pkgs)
    requires Elems(pkgs) == Collect(SplitLines(text), RequirementName)
    ensures Collect(SplitLines(JoinLines(pkgs)), RequirementName) == Elems(pkgs)
    ensures forall again :: StrictlySorted(again) && Elems(again) == Collect(SplitLines(JoinLines(pkgs)), RequirementName)
                            ==> again == pkgs
  {
    ParsedNamesArePlain(SplitLines(text), pkgs);
    SplitJoinLines(pkgs);
    assert SplitLines(JoinLines(pkgs)) == pkgs;
    assert Collect(pkgs, RequirementName) == Elems(pkgs) by {
      forall x ensures x in Collect(pkgs, RequirementName) <==> x in Elems(pkgs) {
        if x in Elems(pkgs) {
          var i :| 0 <= i < |pkgs| && pkgs[i] == x;
          assert RequirementName(pkgs[i]) == Some(x);
        }
      }
    }
    forall again | StrictlySorted(again) && Elems(again) == Collect(SplitLines(JoinLines(pkgs)), RequirementName)
      ensures again == pkgs
    {
      SortedDetermined(again, pkgs);
    }
  }

  // ---------------------------------------------------------------------------
  // pyproject.toml

  /** The stripped part of `t` before the first `p` character keeps only characters of `t`. */
  lemma StripPrefixChars(t: string, p: char -> bool)
    ensures var r := Strip(PrefixBefore(t, p));
            |r| <= |t| && forall c :: c in r ==> c in t && !p(c)
  {
  }

  /** The stripped part of `t` before the first `p` character occurs in `t`. */
  lemma CutIsSubstring(t: string, p: char -> bool)
    ensures IsSubstring(Strip(PrefixBefore(t, p)), t)
  {
    var cut := PrefixBefore(t, p);
    StripByIsSubstring(cut, IsSpace);
    PrefixIsSubstring(cut, t);
    SubstringTransitive(Strip(cut), cut, t);
  }

  /** Stripping double and then single quotes leaves a run of the text. */
  lemma UnquoteIsSubstring(s: string)
    ensures IsSubstring(Unquote(s), s)
  {
    var once := StripBy(s, IsDoubleQuote);
    StripByIsSubstring(s, IsDoubleQuote);
    StripByIsSubstring(once, IsSingleQuote);
    SubstringTransitive(StripBy(once, IsSingleQuote), once, s);
  }

  lemma ContainsWithin(a: string, b: string, p: char -> bool)
    requires Contains(a, p) && forall c :: c in a ==> c in b
    ensures Contains(b, p)
  {
    var k :| 0 <= k < |a| && p(a[k]);
    assert a[k] in b;
  }

  /** Cutting the stripped text before the first operator again before its first `[`
      gives the stripped text before the first `[` or operator character. */
  lemma ExtrasCut(u: string)
    ensures IsStrippedCut(Strip(PrefixBefore(Strip(PrefixBefore(u, IsConstraintChar)), IsOpenBracket)), u, IsNameEnd)
  {
    var name := Strip(PrefixBefore(u, IsConstraintChar));
    StrippedCut(u, IsConstraintChar);
    StrippedCut(name, IsOpenBracket);
    NameEndChars();
    NestedCut(u, name, Strip(PrefixBefore(name, IsOpenBracket)), IsConstraintChar, IsOpenBracket, IsNameEnd, IsSpace);
  }

  lemma NameEndChars()
    ensures forall c :: IsNameEnd(c) <==> IsConstraintChar(c) || IsOpenBracket(c)
    ensures forall c :: IsSpace(c) ==> !IsNameEnd(c)
  {
  }

  /** The name a pyproject line declares once it is stripped of whitespace and quotes:
      the stripped text before the first operator character, without an `[extras]` part. */
  function DeclaredName(unquoted: string): (r: Option<string>)
    ensures r.Some? ==> Contains(unquoted, IsComparisonChar)
    ensures r.Some? ==> r.value != [] && |r.value| <= 80 && IsStripped(r.value)
    ensures r.Some? ==> ' ' !in r.value && '[' !in r.value
    ensures r.Some? ==> forall c :: c in r.value ==> !IsConstraintChar(c)
    ensures r.Some? ==> IsSubstring(r.value, unquoted)
  {
    if !Contains(unquoted, IsComparisonChar) then None
    else
      var name := Strip(PrefixBefore(unquoted, IsConstraintChar));
      if name == [] || ' ' in name || |name| > 80 then None
      else
        var base := Strip(PrefixBefore(name, IsOpenBracket));
        if base == [] then None
        else
          StripPrefixChars(unquoted, IsConstraintChar);
          StripPrefixChars(name, IsOpenBracket);
          CutIsSubstring(unquoted, IsConstraintChar);
          CutIsSubstring(name, IsOpenBracket);
          SubstringTransitive(base, name, unquoted);
          Some(base)
  }

  /** The declared name is the stripped text before the first `[` or operator character. */
  lemma DeclaredNameIsCut(unquoted: string)
    ensures DeclaredName(unquoted).Some? ==> IsStrippedCut(DeclaredName(unquoted).value, unquoted, IsNameEnd)
  {
    if DeclaredName(unquoted).Some? {
      ExtrasCut(unquoted);
    }
  }

  /** The tests a pyproject line's text before its first operator must pass: the stripped
      cut is non-empty, does not start with `[` (which would leave nothing once the extras
      are cut off), holds no space and is at most 80 characters long. */
  ghost predicate AcceptedCut(unquoted: string) {
    forall n :: IsStrippedCut(n, unquoted, IsConstraintChar) ==>
      n != [] && n[0] != '[' && ' ' !in n && |n| <= 80
  }

  /** `AcceptedCut` holds exactly when the cut the parser computes passes the tests. */
  lemma AcceptedCutIsName(unquoted: string)
    ensures var name := Strip(PrefixBefore(unquoted, IsConstraintChar));
            AcceptedCut(unquoted) <==> name != [] && name[0] != '[' && ' ' !in name && |name| <= 80
  {
    var name := Strip(PrefixBefore(unquoted, IsConstraintChar));
    StrippedCut(unquoted, IsConstraintChar);
    forall n | IsStrippedCut(n, unquoted, IsConstraintChar) ensures n == name {
      StrippedCutUnique(n, name, unquoted, IsConstraintChar);
    }
  }

  /** Cutting a stripped, non-empty name at its first `[` leaves something exactly when the
      name does not start with `[`. */
  lemma BracketCutNonEmpty(name: string)
    requires name != [] && IsStripped(name)
    ensures Strip(PrefixBefore(name, IsOpenBracket)) != [] <==> name[0] != '['
  {
    var cut := PrefixBefore(name, IsOpenBracket);
    if name[0] == '[' {
      assert FirstIndex(name, IsOpenBracket) == 0;
      assert cut == [];
    } else {
      assert cut != [] && cut[0] == name[0];
    }
  }

  /** A line stripped of whitespace and quotes declares a name exactly when it holds one
      of `< > = ~` and its text before the first operator passes the tests. */
  lemma DeclaredNameIff(unquoted: string)
    ensures DeclaredName(unquoted).Some? <==> Contains(unquoted, IsComparisonChar) && AcceptedCut(unquoted)
  {
    AcceptedCutIsName(unquoted);
    var name := Strip(PrefixBefore(unquoted, IsConstraintChar));
    if name != [] {
      BracketCutNonEmpty(name);
    }
  }

  /** The package name one pyproject.toml line contributes, if any. */
  function PyprojectName(line: string): (r: Option<string>)
    ensures r.Some? ==> (var s := Strip(line); s != [] && s[0] != '#' && s[0] != '[' && Contains(s, IsComparisonChar))
    ensures r.Some? ==> r.value != [] && |r.value| <= 80 && IsStripped(r.value)
    ensures r.Some? ==> ' ' !in r.value && '[' !in r.value
    ensures r.Some? ==> forall c :: c in r.value ==> !IsConstraintChar(c)
    ensures r.Some? ==> IsSubstring(r.value, Strip(line))
  {
    var s := Strip(line);
    if s == [] || s[0] == '#' || s[0] == '[' then None
    else
      var unquoted := Unquote(s);
      var r := DeclaredName(unquoted);
      if r.Some? then
        ContainsWithin(unquoted, s, IsComparisonChar);
        UnquoteIsSubstring(s);
        SubstringTransitive(r.value, unquoted, s);
        r
      else r
  }

  /** The name a pyproject line yields is the stripped text before the first `[` or operator
      character of the line stripped of whitespace and then of quotes, and no other string is. */
  lemma PyprojectNameIsCut(line: string)
    ensures PyprojectName(line).Some? ==>
              IsStrippedCut(PyprojectName(line).value, Unquote(Strip(line)), IsNameEnd)
    ensures forall n :: PyprojectName(line).Some? && IsStrippedCut(n, Unquote(Strip(line)), IsNameEnd)
                        ==> n == PyprojectName(line).value
  {
    if PyprojectName(line).Some? {
      var u := Unquote(Strip(line));
      assert PyprojectName(line) == DeclaredName(u);
      DeclaredNameIsCut(u);
      forall n | IsStrippedCut(n, u, IsNameEnd) ensures n == PyprojectName(line).value {
        StrippedCutUnique(n, PyprojectName(line).value, u, IsNameEnd);
      }
    }
  }

  /** A pyproject line that is not blank, a comment or a section header yields what its
      unquoted text declares; any other line yields nothing. */
  lemma PyprojectNameDeclared(line: string)
    ensures var s := Strip(line);
            PyprojectName(line) == if s == [] || s[0] == '#' || s[0] == '[' then None else DeclaredName(Unquote(s))
  {
  }

  /** A pyproject line yields a name exactly when its stripped form is not blank, a comment
      or a section header, and its unquoted text holds one of `< > = ~` and has a text
      before the first operator that passes the tests. */
  lemma PyprojectNameIff(line: string)
    ensures var s := Strip(line);
            PyprojectName(line).Some? <==>
              && s != [] && s[0] != '#' && s[0] != '['
              && Contains(Unquote(s), IsComparisonChar) && AcceptedCut(Unquote(s))
  {
    var s := Strip(line);
    PyprojectNameDeclared(line);
    if !(s == [] || s[0] == '#' || s[0] == '[') {
      DeclaredNameIff(Unquote(s));
    }
  }

  /** A plain name pinned with `==1` is a pyproject line that yields exactly that name. */
  lemma PinnedNameIsOwnDependency(n: string)
    requires n != [] && IsStripped(n) && |n| <= 80 && n[0] != '#'
    requires forall c :: c in n ==> c != ' ' && c != '[' && c != '"' && c != '\'' && !IsConstraintChar(c)
    ensures PyprojectName(n + "==1") == Some(n)
  {
    var line := n + "==1";
    assert line[0] == n[0] && n[0] in n && line[|line| - 1] == '1';
    var s := Strip(line);
    assert s == line;
    assert StripBy(s, IsDoubleQuote) == s;
    var unquoted := Unquote(s);
    assert unquoted == line;
    PinnedDeclaredName(n);
  }

  /** Cutting `name==1` at the operator gives the name, and the name has no `[` to cut at. */
  lemma PinnedCuts(n: string)
    requires n != [] && IsStripped(n)
    requires forall c :: c in n ==> c != '[' && !IsConstraintChar(c)
    ensures Strip(PrefixBefore(n + "==1", IsConstraintChar)) == n
    ensures Strip(PrefixBefore(n, IsOpenBracket)) == n
  {
    assert forall k :: 0 <= k < |n| ==> n[k] in n;
    PrefixBeforeStops(n, "==1", IsConstraintChar);
    PrefixBeforeStops(n, [], IsOpenBracket);
    assert n + [] == n;
  }

  lemma PinnedDeclaredName(n: string)
    requires n != [] && IsStripped(n) && |n| <= 80
    requires forall c :: c in n ==> c != ' ' && c != '[' && !IsConstraintChar(c)
    ensures DeclaredName(n + "==1") == Some(n)
  {
    var line := n + "==1";
    assert line[|n|] == '=';
    assert Contains(line, IsComparisonChar);
    PinnedCuts(n);
  }

  /** A name with an `[extras]` part holds no operator character or space and is stripped. */
  lemma BracketedNameIsPlain(n: string, extras: string)
    requires n != [] && IsStripped(n)
    requires forall c :: c in n ==> c != ' ' && c != '[' && !IsConstraintChar(c)
    requires forall c :: c in extras ==> c != ' ' && !IsConstraintChar(c)
    ensures var named := n + "[" + extras + "]";
            && IsStripped(named) && ' ' !in named
            && forall k :: 0 <= k < |named| ==> !IsConstraintChar(named[k])
  {
    var named := n + "[" + extras + "]";
    forall k | 0 <= k < |named| ensures !IsConstraintChar(named[k]) && named[k] != ' ' {
      if k < |n| {
        assert named[k] == n[k] && n[k] in n;
      } else if |n| < k < |named| - 1 {
        assert named[k] == extras[k - |n| - 1] && extras[k - |n| - 1] in extras;
      }
    }
    assert named[0] == n[0] && named[|named| - 1] == ']';
  }

  /** Cutting `name[extras]` followed by an operator at the operator gives `name[extras]`,
      and cutting that at its `[` gives `name`. */
  lemma ExtrasCuts(n: string, extras: string, rest: string)
    requires n != [] && IsStripped(n)
    requires forall c :: c in n ==> c != ' ' && c != '[' && !IsConstraintChar(c)
    requires forall c :: c in extras ==> c != ' ' && !IsConstraintChar(c)
    requires rest != [] && IsConstraintChar(rest[0])
    ensures var named := n + "[" + extras + "]";
            && Strip(PrefixBefore(named + rest, IsConstraintChar)) == named
            && Strip(PrefixBefore(named, IsOpenBracket)) == n
  {
    var bracketed := "[" + extras + "]";
    var named := n + bracketed;
    assert named == n + "[" + extras + "]";
    BracketedNameIsPlain(n, extras);
    PrefixBeforeStops(named, rest, IsConstraintChar);
    assert forall k :: 0 <= k < |n| ==> n[k] in n;
    PrefixBeforeStops(n, bracketed, IsOpenBracket);
  }

  /** A name with an `[extras]` part, followed by a comparison, declares exactly that name. */
  lemma ExtrasDeclaredName(n: string, extras: string, rest: string)
    requires n != [] && IsStripped(n)
    requires forall c :: c in n ==> c != ' ' && c != '[' && !IsConstraintChar(c)
    requires forall c :: c in extras ==> c != ' ' && !IsConstraintChar(c)
    requires |n| + |extras| + 2 <= 80
    requires rest != [] && IsComparisonChar(rest[0])
    ensures DeclaredName(n + "[" + extras + "]" + rest) == Some(n)
  {
    var named := n + "[" + extras + "]";
    var line := named + rest;
    assert line[|named|] == rest[0];
    assert Contains(line, IsComparisonChar);
    BracketedNameIsPlain(n, extras);
    ExtrasCuts(n, extras, rest);
  }

  /** Stripping double quotes from a double quote followed by text that neither starts nor
      ends with one leaves that text. */
  lemma StripLeadingQuote(inner: string)
    requires inner != [] && inner[0] != '"' && inner[|inner| - 1] != '"'
    ensures StripBy("\"" + inner, IsDoubleQuote) == inner
  {
    var line := "\"" + inner;
    assert line[1..] == inner;
    assert DropWhile(line, IsDoubleQuote) == DropWhile(inner, IsDoubleQuote) == inner;
    assert DropLastWhile(inner, IsDoubleQuote) == inner;
  }

  /** A line that starts with a double quote and ends in a comma has no whitespace to strip. */
  lemma QuotedEntryStripped(inner: string)
    requires inner != [] && inner[|inner| - 1] == ','
    ensures Strip("\"" + inner) == "\"" + inner
  {
    var line := "\"" + inner;
    assert line[0] == '"' && line[|line| - 1] == ',';
    assert IsStripped(line);
  }

  /** An opening double quote in front of text that starts with neither quote and ends in
      a comma is all that unquoting removes. */
  lemma UnquoteLeading(inner: string)
    requires inner != [] && inner[0] != '"' && inner[0] != '\'' && inner[|inner| - 1] == ','
    ensures Unquote("\"" + inner) == inner
  {
    StripLeadingQuote(inner);
    assert StripBy(inner, IsSingleQuote) == inner;
  }

  /** A dependency-array entry, quoted in front and ending in a comma, declares what its
      text without the opening quote declares. */
  lemma QuotedDeclaration(inner: string)
    requires inner != [] && inner[0] != '"' && inner[0] != '\'' && inner[|inner| - 1] == ','
    ensures PyprojectName("\"" + inner) == DeclaredName(inner)
  {
    var line := "\"" + inner;
    assert line[0] == '"';
    UnquoteLeading(inner);
    QuotedEntryStripped(inner);
    assert !(line == [] || line[0] == '#' || line[0] == '[');
  }

  /** A quoted dependency-array entry with extras, `"name[extras]>=2.0",`, yields exactly
      the name. */
  lemma ExtrasNameIsOwnDependency(n: string, extras: string, rest: string)
    requires n != [] && IsStripped(n) && n[0] != '"' && n[0] != '\''
    requires forall c :: c in n ==> c != ' ' && c != '[' && !IsConstraintChar(c)
    requires forall c :: c in extras ==> c != ' ' && !IsConstraintChar(c)
    requires |n| + |extras| + 2 <= 80
    requires rest != [] && IsComparisonChar(rest[0])
    ensures PyprojectName("\"" + n + "[" + extras + "]" + rest + "\",") == Some(n)
  {
    var tail := rest + "\",";
    var inner := n + "[" + extras + "]" + tail;
    assert "\"" + n + "[" + extras + "]" + rest + "\"," == "\"" + inner;
    assert inner[0] == n[0] && inner[|inner| - 1] == ',' && tail[0] == rest[0];
    QuotedDeclaration(inner);
    ExtrasDeclaredName(n, extras, tail);
  }

  /** A space inside the extras, `name[a b]>=1`, rejects the whole line: the space test is
      made on the text before the operator, before the extras are cut off. */
  lemma SpacedExtrasRejected(n: string, extras: string, rest: string)
    requires n != [] && IsStripped(n)
    requires forall c :: c in n ==> c != '[' && !IsConstraintChar(c)
    requires forall c :: c in extras ==> !IsConstraintChar(c)
    requires ' ' in extras
    requires rest != [] && IsComparisonChar(rest[0])
    ensures DeclaredName(n + "[" + extras + "]" + rest) == None
  {
    var named := n + "[" + extras + "]";
    forall k | 0 <= k < |named| ensures !IsConstraintChar(named[k]) {
      if k < |n| {
        assert named[k] == n[k] && n[k] in n;
      } else if |n| < k < |named| - 1 {
        assert named[k] == extras[k - |n| - 1] && extras[k - |n| - 1] in extras;
      }
    }
    PrefixBeforeStops(named, rest, IsConstraintChar);
    assert named[0] == n[0] && named[|named| - 1] == ']';
    assert IsStripped(named);
    var i :| 0 <= i < |extras| && extras[i] == ' ';
    assert named[|n| + 1 + i] == ' ';
  }

  /** The same rejection for a quoted dependency-array entry, `"name[a b]>=1",`. */
  lemma SpacedExtrasNotADependency(n: string, extras: string, rest: string)
    requires n != [] && IsStripped(n) && n[0] != '"' && n[0] != '\''
    requires forall c :: c in n ==> c != '[' && !IsConstraintChar(c)
    requires forall c :: c in extras ==> !IsConstraintChar(c)
    requires ' ' in extras
    requires rest != [] && IsComparisonChar(rest[0])
    ensures PyprojectName("\"" + n + "[" + extras + "]" + rest + "\",") == None
  {
    var tail := rest + "\",";
    var inner := n + "[" + extras + "]" + tail;
    assert "\"" + n + "[" + extras + "]" + rest + "\"," == "\"" + inner;
    assert inner[0] == n[0] && inner[|inner| - 1] == ',' && tail[0] == rest[0];
    QuotedDeclaration(inner);
    SpacedExtrasRejected(n, extras, tail);
  }

  /** `_parse_pyproject`: the names of the dependency-looking lines, sorted, without duplicates. */
  method ParsePyproject(text: string) returns (pkgs: seq<string>)
    ensures StrictlySorted(pkgs)
    ensures Elems(pkgs) == Collect(SplitLines(text), PyprojectName)
  {
    var lines := SplitLines(text);
    var found: set<string> := {};
    for i := 0 to |lines|
      invariant found == Collect(lines[..i], PyprojectName)
    {
      CollectExtend(lines, i, PyprojectName);
      var s := Strip(lines[i]);
      if s == [] || s[0] == '#' || s[0] == '[' {
        assert PyprojectName(lines[i]).None?;
        continue;
      }
      s := Unquote(s);
      assert PyprojectName(lines[i]) == DeclaredName(s);
      if Contains(s, IsComparisonChar) {
        var name := Strip(PrefixBefore(s, IsConstraintChar));
        if name != [] && ' ' !in name && |name| <= 80 {
          name := Strip(PrefixBefore(name, IsOpenBracket));
          assert DeclaredName(s) == if name != [] then Some(name) else None;
          if name != [] {
            found := found + {name};
          }
        }
      }
    }
    assert lines[..|lines|] == lines;
    pkgs := SortedSet(found);
  }

  // ---------------------------------------------------------------------------
  // package-lock.json

  /** `_parse_package_lock` applied to the outcome of `json.loads` (`None` when the text is
      not valid JSON): the keys of the top-level `dependencies` object, sorted. */
  function ParsePackageLock(decoded: Option<Json>): (r: Result<seq<string>>)
    ensures r.Ok? ==> StrictlySorted(r.value)
    ensures decoded.None? || !decoded.value.JObject? ==> r.Err?
    ensures decoded.Some? && decoded.value.JObject? ==>
              var fields := decoded.value.fields;
              && ("dependencies" !in fields || fields["dependencies"] == JNull ==> r == Ok([]))
              && ("dependencies" in fields && fields["dependencies"].JObject? ==>
                    r.Ok? && Elems(r.value) == fields["dependencies"].fields.Keys)
    ensures r.Ok? && r.value != [] ==>
              decoded.Some? && decoded.value.JObject? && "dependencies" in decoded.value.fields
              && decoded.value.fields["dependencies"].JObject?
    ensures decoded.Some? && decoded.value.JObject? ==>
              var deps := GetOr(decoded.value.fields, "dependencies", JObject(map[]));
              && (!Truthy(deps) ==> r == Ok([]))
              && (r.Err? <==> Truthy(deps) && !deps.JObject?)
    ensures r.Err? <==> decoded.None? || !decoded.value.JObject?
                        || (var deps := GetOr(decoded.value.fields, "dependencies", JObject(map[]));
                            Truthy(deps) && !deps.JObject?)
  {
    match decoded
    case None => Err("the lockfile is not valid JSON")
    case Some(data) =>
      if !data.JObject? then Err("the lockfile's top-level value is not an object")
      else
        var deps := GetOr(data.fields, "dependencies", JObject(map[]));
        if !Truthy(deps) then Ok([])
        else if deps.JObject? then Ok(SortedSet(deps.fields.Keys))
        else Err("the lockfile's dependencies value is not an object")
  }

  // ---------------------------------------------------------------------------
  // Dispatch

  /** The set of names a dialect's parser extracts, or the error it raises. */
  function NamesFound(k: ManifestKind, text: string, decoded: Option<Json>): Result<set<string>> {
    match k
    case Requirements => Ok(Collect(SplitLines(text), RequirementName))
    case Pyproject => Ok(Collect(SplitLines(text), PyprojectName))
    case PackageLock =>
      match ParsePackageLock(decoded)
      case Ok(names) => Ok(Elems(names))
      case Err(e) => Err(e)
  }

  /** `detect_and_extract_packages`. `text` is the upload decoded as text and `decoded`
      the outcome of `json.loads` on it; only a package-lock.json file consults `decoded`. */
  method DetectAndExtract(filename: string, text: string, decoded: Option<Json>) returns (out: Extraction)
    ensures Detect(filename).None? ==> out == Unsupported(UnsupportedError, SupportedNames, UnsupportedHint)
    ensures Detect(filename).Some? ==>
              var k := Detect(filename).value;
              match NamesFound(k, text, decoded)
              case Err(e) => out == Raised(e)
              case Ok(names) =>
                && (names == {} ==> out == NothingFound("No packages detected in " + KindName(k) + "."))
                && (names != {} ==> out.Extracted? && out.kind == k && out.ecosystem == EcosystemOf(k)
                                    && StrictlySorted(out.packages) && Elems(out.packages) == names)
    ensures out.Ok() ==> out.packages != []
  {
    // `Detect` follows the source's chain of suffix tests on the lower-cased name.
    var detected := Detect(filename);
    if detected.None? {
      return Unsupported(UnsupportedError, SupportedNames, UnsupportedHint);
    }
    var kind := detected.value;
    var pkgs: seq<string>;
    var eco: string;
    match kind {
      case Requirements =>
        pkgs := ParseRequirements(text);
        eco := "PyPI";
      case PackageLock =>
        var parsed := ParsePackageLock(decoded);
        if parsed.Err? {
          return Raised(parsed.error);
        }
        pkgs := parsed.value;
        eco := "npm";
      case Pyproject =>
        pkgs := ParsePyproject(text);
        eco := "PyPI";
    }
    assert NamesFound(kind, text, decoded) == Ok(Elems(pkgs));
    assert EcosystemOf(kind) == eco;
    if pkgs == [] {
      return NothingFound("No packages detected in " + KindName(kind) + ".");
    }
    HeadInElems(pkgs);
    out := Extracted(kind, eco, pkgs);
  }
}
