/**
  The string operations of Python's `str` that the manifest parsers rely on:
  `strip`, `splitlines`, `lower`, `endswith`, cutting at the first of a set of
  characters, and the code-point ordering that `sorted` uses.
  Strings are sequences of Unicode scalar values, as Python's are of code points.
 */
module Text {

  /** `str.isspace`: the characters that `str.strip()` removes by default. */
  predicate IsSpace(c: char) {
    ('\t' <= c <= '\r') || ('\U{1C}' <= c <= ' ') || c == '\U{85}' || c == '\U{A0}' || c == '\U{1680}'
    || ('\U{2000}' <= c <= '\U{200A}') || c == '\U{2028}' || c == '\U{2029}' || c == '\U{202F}'
    || c == '\U{205F}' || c == '\U{3000}'
  }

  /** The characters at which `str.splitlines` ends a line ("\r\n" counts once). */
  predicate IsLineBreak(c: char) {
    ('\n' <= c <= '\r') || ('\U{1C}' <= c <= '\U{1E}') || c == '\U{85}' || c == '\U{2028}' || c == '\U{2029}'
  }

  predicate NoLineBreak(s: string) {
    forall k :: 0 <= k < |s| ==> !IsLineBreak(s[k])
  }

  /** Neither the first nor the last character is whitespace. */
  predicate IsStripped(s: string) {
    s == [] || (!IsSpace(s[0]) && !IsSpace(s[|s| - 1]))
  }

  /** Drops the longest prefix whose characters all satisfy `p`. */
  function DropWhile(s: string, p: char -> bool): (r: string)
    ensures |r| <= |s| && r == s[|s| - |r|..]
    ensures forall k :: 0 <= k < |s| - |r| ==> p(s[k])
    ensures r == [] || !p(r[0])
  {
    if s != [] && p(s[0]) then DropWhile(s[1..], p) else s
  }

  /** Drops the longest suffix whose characters all satisfy `p`. */
  function DropLastWhile(s: string, p: char -> bool): (r: string)
    ensures |r| <= |s| && r == s[..|r|]
    ensures forall k :: |r| <= k < |s| ==> p(s[k])
    ensures r == [] || !p(r[|r| - 1])
  {
    if s != [] && p(s[|s| - 1]) then DropLastWhile(s[..|s| - 1], p) else s
  }

  /** Python's `s.strip(chars)` where `p` recognises the characters in `chars`. */
  function StripBy(s: string, p: char -> bool): (r: string)
    ensures r == [] || (!p(r[0]) && !p(r[|r| - 1]))
    ensures forall c :: c in r ==> c in s
    ensures |r| <= |s|
    ensures s != [] && !p(s[0]) ==> r != [] && r <= s
    ensures s != [] && !p(s[0]) && !p(s[|s| - 1]) ==> r == s
  {
    var d := DropWhile(s, p);
    var r := DropLastWhile(d, p);
    assert forall c :: c in r ==> c in d;
    r
  }

  /** Python's `s.strip()`. */
  function Strip(s: string): (r: string)
    ensures IsStripped(r)
    ensures forall c :: c in r ==> c in s
    ensures |r| <= |s|
    ensures s != [] && !IsSpace(s[0]) ==> r != [] && r <= s
    ensures IsStripped(s) ==> r == s
  {
    StripBy(s, IsSpace)
  }

  /** The index of the first character satisfying `p`, or `|s|` when there is none. */
  function FirstIndex(s: string, p: char -> bool): (k: nat)
    ensures k <= |s|
    ensures forall j :: 0 <= j < k ==> !p(s[j])
    ensures k < |s| ==> p(s[k])
  {
    if s == [] || p(s[0]) then 0 else 1 + FirstIndex(s[1..], p)
  }

  /** The part of `s` before the first character satisfying `p` (all of `s` when there is none):
      `re.split("[...]", s, maxsplit=1)[0]` and `s.split(c, 1)[0]`. */
  function PrefixBefore(s: string, p: char -> bool): (r: string)
    ensures r <= s
    ensures forall c :: c in r ==> !p(c) && c in s
    ensures r == s || p(s[|r|])
  {
    var r := s[..FirstIndex(s, p)];
    assert forall c :: c in r ==> c in s by {
      forall c | c in r ensures c in s {
        var k :| 0 <= k < |r| && r[k] == c;
        assert s[k] == c;
      }
    }
    r
  }

  /** Some character of `s` satisfies `p`. */
  predicate Contains(s: string, p: char -> bool) {
    exists k :: 0 <= k < |s| && p(s[k])
  }

  /** Cutting `a + b` before its first `p` character gives `a` when `a` has none and `b`
      is empty or starts with one. */
  lemma PrefixBeforeStops(a: string, b: string, p: char -> bool)
    requires forall k :: 0 <= k < |a| ==> !p(a[k])
    requires b == [] || p(b[0])
    ensures PrefixBefore(a + b, p) == a
  {
    var s := a + b;
    var r := PrefixBefore(s, p);
    assert r == s[..|a|] == a;
  }

  /** `FirstIndex` is the position `k` when no earlier character satisfies `p` and
      `k` is the end or holds one that does. */
  lemma FirstIndexAt(s: string, p: char -> bool, k: nat)
    requires k <= |s| && (forall j :: 0 <= j < k ==> !p(s[j])) && (k == |s| || p(s[k]))
    ensures FirstIndex(s, p) == k
  {
  }

  /** `r` sits at position `i` of `s`, and only `w` characters lie between the start of `s`
      and `r` and between the end of `r` and position `end`. */
  predicate CutAt(r: string, s: string, i: int, end: int, w: char -> bool) {
    && 0 <= i && i + |r| <= end <= |s|
    && (forall k :: 0 <= k < |r| ==> s[i + k] == r[k])
    && (forall k :: 0 <= k < i ==> w(s[k]))
    && (forall k :: i + |r| <= k < end ==> w(s[k]))
  }

  /** `r` is the text of `s` before its first `p` character, without surrounding `w`
      characters, stated by position in `s`. */
  ghost predicate IsCut(r: string, s: string, p: char -> bool, w: char -> bool) {
    && (r == [] || (!w(r[0]) && !w(r[|r| - 1])))
    && exists i :: CutAt(r, s, i, FirstIndex(s, p), w)
  }

  /** `r` is the text of `s` before its first `p` character, without surrounding whitespace:
      `re.split(..., s, maxsplit=1)[0].strip()`. */
  ghost predicate IsStrippedCut(r: string, s: string, p: char -> bool) {
    IsCut(r, s, p, IsSpace)
  }

  /** `StripBy(t, w)` is the run of `t` at some position `i` with only `w` characters
      before and after it. */
  lemma StripByParts(t: string, w: char -> bool) returns (i: nat)
    ensures CutAt(StripBy(t, w), t, i, |t|, w)
  {
    var d := DropWhile(t, w);
    DropWhileAt(t, w);
    DropLastWhileAt(d, w);
    i := |t| - |d|;
    var r := DropLastWhile(d, w);
    CutOfDrops(t, d, r, w);
    assert StripBy(t, w) == r;
    CutAtSame(StripBy(t, w), r, t, i, |t|, w);
  }

  /** A cut stays a cut when it is written as another, equal string. */
  lemma CutAtSame(a: string, b: string, s: string, i: int, end: int, w: char -> bool)
    requires a == b && CutAt(b, s, i, end, w)
    ensures CutAt(a, s, i, end, w)
  {
  }

  /** The characters `DropWhile` leaves are the last ones of `s`, and those it drops satisfy `p`. */
  lemma DropWhileAt(s: string, p: char -> bool)
    ensures var d := DropWhile(s, p);
            && (forall k :: 0 <= k < |d| ==> d[k] == s[|s| - |d| + k])
            && (forall k :: 0 <= k < |s| - |d| ==> p(s[k]))
  {
  }

  /** The characters `DropLastWhile` leaves are the first ones of `s`, and those it drops
      satisfy `p`. */
  lemma DropLastWhileAt(s: string, p: char -> bool)
    ensures var r := DropLastWhile(s, p);
            && (forall k :: 0 <= k < |r| ==> r[k] == s[k])
            && (forall k :: |r| <= k < |s| ==> p(s[k]))
  {
  }

  /** Dropping `w` characters from the front of `t`, giving `d`, and then from the back of
      `d`, giving `r`, leaves `r` as a cut of `t` at `|t| - |d|`. */
  lemma CutOfDrops(t: string, d: string, r: string, w: char -> bool)
    requires |d| <= |t| && |r| <= |d|
    requires forall k :: 0 <= k < |d| ==> d[k] == t[|t| - |d| + k]
    requires forall k :: 0 <= k < |t| - |d| ==> w(t[k])
    requires forall k :: 0 <= k < |r| ==> r[k] == d[k]
    requires forall k :: |r| <= k < |d| ==> w(d[k])
    ensures CutAt(r, t, |t| - |d|, |t|, w)
  {
    var i := |t| - |d|;
    forall k | i + |r| <= k < |t| ensures w(t[k]) {
      assert t[k] == d[k - i];
    }
  }

  /** Stripping `w` characters from the first `end` characters of `s` leaves a run of `s`
      with only `w` characters around it up to `end`. */
  lemma StripByPrefixCut(s: string, end: nat, w: char -> bool) returns (i: nat)
    requires end <= |s|
    ensures CutAt(StripBy(s[..end], w), s, i, end, w)
  {
    i := StripByParts(s[..end], w);
    CutAtPrefix(StripBy(s[..end], w), s, end, i, w);
  }

  /** A cut of the first `end` characters of `s` is a cut of `s` up to `end`. */
  lemma CutAtPrefix(r: string, s: string, end: nat, i: int, w: char -> bool)
    requires end <= |s| && CutAt(r, s[..end], i, end, w)
    ensures CutAt(r, s, i, end, w)
  {
    var t := s[..end];
    forall k | 0 <= k < |r| ensures s[i + k] == r[k] {
      assert t[i + k] == s[i + k];
    }
    forall k | 0 <= k < i ensures w(s[k]) {
      assert t[k] == s[k];
    }
    forall k | i + |r| <= k < end ensures w(s[k]) {
      assert t[k] == s[k];
    }
  }

  lemma StripByCut(s: string, p: char -> bool, w: char -> bool)
    ensures IsCut(StripBy(PrefixBefore(s, p), w), s, p, w)
  {
    var end := FirstIndex(s, p);
    assert PrefixBefore(s, p) == s[..end];
    var i := StripByPrefixCut(s, end, w);
  }

  /** Stripping the text before the first `p` character gives the stripped cut. */
  lemma StrippedCut(s: string, p: char -> bool)
    ensures IsStrippedCut(Strip(PrefixBefore(s, p)), s, p)
  {
    StripByCut(s, p, IsSpace);
  }

  lemma CutUnique(a: string, b: string, s: string, p: char -> bool, w: char -> bool)
    requires IsCut(a, s, p, w) && IsCut(b, s, p, w)
    ensures a == b
  {
    var end := FirstIndex(s, p);
    var i :| CutAt(a, s, i, end, w);
    var j :| CutAt(b, s, j, end, w);
    if a != [] && b != [] {
      assert s[i + 0] == a[0] && s[j + 0] == b[0];
      assert i == j;
      assert s[i + (|a| - 1)] == a[|a| - 1] && s[j + (|b| - 1)] == b[|b| - 1];
      forall k | 0 <= k < |a| ensures a[k] == b[k] {
        assert s[i + k] == a[k];
      }
    }
  }

  /** A stripped cut of `s` is determined by `s`: at most one string is one. */
  lemma StrippedCutUnique(a: string, b: string, s: string, p: char -> bool)
    requires IsStrippedCut(a, s, p) && IsStrippedCut(b, s, p)
    ensures a == b
  {
    CutUnique(a, b, s, p, IsSpace);
  }

  /** The first `pq` character of `u`, where `pq` is `p` or `q`: the first `q` character of
      the cut `name` of `u` at `p`, and otherwise the end of that cut. */
  lemma NestedCutEnd(u: string, name: string, p: char -> bool, q: char -> bool, pq: char -> bool,
                     w: char -> bool, i: int)
    requires CutAt(name, u, i, FirstIndex(u, p), w)
    requires forall c :: pq(c) <==> p(c) || q(c)
    requires forall c :: w(c) ==> !pq(c)
    ensures var e := FirstIndex(name, q);
            FirstIndex(u, pq) == if e < |name| then i + e else FirstIndex(u, p)
  {
    var e1, e := FirstIndex(u, p), FirstIndex(name, q);
    var end := if e < |name| then i + e else e1;
    forall j | 0 <= j < end ensures !pq(u[j]) {
      if i <= j < i + |name| {
        assert u[i + (j - i)] == name[j - i];
      }
    }
    if e < |name| {
      assert u[i + e] == name[e];
    }
    FirstIndexAt(u, pq, end);
  }

  /** A cut of a cut of `u` is a cut of `u`, ending where the inner cut ends, or where the
      outer one does when the inner one runs to the end of `name`. */
  lemma CutAtNested(u: string, name: string, base: string, i1: int, e1: int, i2: int, e2: int, w: char -> bool)
    requires CutAt(name, u, i1, e1, w) && CutAt(base, name, i2, e2, w)
    ensures CutAt(base, u, i1 + i2, if e2 < |name| then i1 + e2 else e1, w)
  {
    var end := if e2 < |name| then i1 + e2 else e1;
    forall k | 0 <= k < i1 + i2 ensures w(u[k]) {
      if i1 <= k {
        assert u[i1 + (k - i1)] == name[k - i1];
      }
    }
    forall k | i1 + i2 + |base| <= k < end ensures w(u[k]) {
      if k < i1 + |name| {
        assert u[i1 + (k - i1)] == name[k - i1];
      }
    }
    forall k | 0 <= k < |base| ensures u[i1 + i2 + k] == base[k] {
      assert base[k] == name[i2 + k];
    }
  }

  /** Cutting the cut of `u` at `p` again at `q` is the cut of `u` at the first character
      that is `p` or `q`. */
  lemma NestedCut(u: string, name: string, base: string, p: char -> bool, q: char -> bool, pq: char -> bool,
                  w: char -> bool)
    requires IsCut(name, u, p, w) && IsCut(base, name, q, w)
    requires forall c :: pq(c) <==> p(c) || q(c)
    requires forall c :: w(c) ==> !pq(c)
    ensures IsCut(base, u, pq, w)
  {
    var e1, e2 := FirstIndex(u, p), FirstIndex(name, q);
    var i1 :| CutAt(name, u, i1, e1, w);
    var i2 :| CutAt(base, name, i2, e2, w);
    NestedCutEnd(u, name, p, q, pq, w, i1);
    var end := if e2 < |name| then i1 + e2 else e1;
    assert FirstIndex(u, pq) == end;
    CutAtNested(u, name, base, i1, e1, i2, e2, w);
    assert CutAt(base, u, i1 + i2, end, w);
  }

  /** `r` occurs in `s` starting at position `i`. */
  predicate OccursAt(r: string, s: string, i: int) {
    0 <= i <= |s| - |r| && s[i..i + |r|] == r
  }

  /** `r` occurs in `s` as a run of consecutive characters. */
  predicate IsSubstring(r: string, s: string) {
    exists i :: 0 <= i <= |s| && OccursAt(r, s, i)
  }

  lemma PrefixIsSubstring(r: string, s: string)
    requires r <= s
    ensures IsSubstring(r, s)
  {
    assert OccursAt(r, s, 0);
  }

  lemma StripByIsSubstring(s: string, p: char -> bool)
    ensures IsSubstring(StripBy(s, p), s)
  {
    var d := DropWhile(s, p);
    var r := DropLastWhile(d, p);
    var i := |s| - |d|;
    assert d == s[i..];
    assert r == d[..|r|];
    forall k | 0 <= k < |r| ensures s[i + k] == r[k] {
      assert r[k] == d[k];
    }
    assert s[i..i + |r|] == r;
    assert OccursAt(r, s, i);
  }

  lemma SubstringTransitive(a: string, b: string, c: string)
    requires IsSubstring(a, b) && IsSubstring(b, c)
    ensures IsSubstring(a, c)
  {
    var i :| 0 <= i <= |b| && OccursAt(a, b, i);
    var j :| 0 <= j <= |c| && OccursAt(b, c, j);
    forall k | 0 <= k < |a| ensures c[j + i + k] == a[k] {
      assert b[i + k] == a[k];
      assert c[j + i + k] == b[i + k];
    }
    assert c[j + i..j + i + |a|] == a;
    assert OccursAt(a, c, j + i);
  }

  /** `str.endswith`. */
  predicate EndsWith(s: string, suffix: string) {
    |suffix| <= |s| && s[|s| - |suffix|..] == suffix
  }

  /** Lower-cases ASCII letters and the Kelvin sign, the characters whose lower case is an ASCII letter. */
  function LowerChar(c: char): char {
    if 'A' <= c <= 'Z' then (c as int + 32) as char
    else if c == '\U{212A}' then 'k'
    else c
  }

  function Lower(s: string): (r: string)
    ensures |r| == |s|
    ensures forall k :: 0 <= k < |s| ==> r[k] == LowerChar(s[k])
  {
    seq(|s|, k requires 0 <= k < |s| => LowerChar(s[k]))
  }

  /** Python's `str.splitlines()`: a trailing line break does not start an empty last line. */
  function SplitLines(s: string): (lines: seq<string>)
    ensures forall i :: 0 <= i < |lines| ==> NoLineBreak(lines[i])
    decreases |s|
  {
    if s == [] then []
    else
      var k := FirstIndex(s, IsLineBreak);
      if k == |s| then [s]
      else if s[k] == '\r' && k + 1 < |s| && s[k + 1] == '\n' then [s[..k]] + SplitLines(s[k + 2..])
      else [s[..k]] + SplitLines(s[k + 1..])
  }

  /** Python's `"\n".join(names)`. */
  function JoinLines(names: seq<string>): string {
    if names == [] then []
    else if |names| == 1 then names[0]
    else names[0] + "\n" + JoinLines(names[1..])
  }

  /** Joining non-empty, break-free lines with "\n" and splitting again gives them back. */
  lemma {:induction false} SplitJoinLines(names: seq<string>)
    requires forall i :: 0 <= i < |names| ==> names[i] != [] && NoLineBreak(names[i])
    ensures SplitLines(JoinLines(names)) == names
  {
    if |names| == 1 {
      var s := names[0];
      var k := FirstIndex(s, IsLineBreak);
      assert k == |s|;
    } else if |names| > 1 {
      var n := names[0];
      var rest := JoinLines(names[1..]);
      var s := n + "\n" + rest;
      assert s == JoinLines(names);
      var k := FirstIndex(s, IsLineBreak);
      assert IsLineBreak(s[|n|]);
      assert forall j :: 0 <= j < |n| ==> s[j] == n[j];
      assert k == |n|;
      assert s[..k] == n;
      assert s[k + 1..] == rest;
      SplitJoinLines(names[1..]);
    }
  }

  /** Python's `<` on `str`: lexicographic by code point, a proper prefix coming first. */
  predicate Less(a: string, b: string)
    decreases |a|
  {
    if a == [] then b != []
    else if b == [] then false
    else if a[0] != b[0] then a[0] < b[0]
    else Less(a[1..], b[1..])
  }

  lemma {:induction false} LessIrreflexive(a: string)
    ensures !Less(a, a)
  {
    if a != [] {
      LessIrreflexive(a[1..]);
    }
  }

  lemma {:induction false} LessTransitive(a: string, b: string, c: string)
    requires Less(a, b) && Less(b, c)
    ensures Less(a, c)
  {
    if a != [] && a[0] == b[0] && b[0] == c[0] {
      LessTransitive(a[1..], b[1..], c[1..]);
    }
  }

  lemma {:induction false} LessTotal(a: string, b: string)
    requires a != b
    ensures Less(a, b) || Less(b, a)
  {
    if a != [] && b != [] && a[0] == b[0] {
      assert a == [a[0]] + a[1..] && b == [b[0]] + b[1..];
      LessTotal(a[1..], b[1..]);
    }
  }

  lemma LessAsymmetric()
    ensures forall a, b :: Less(a, b) ==> !Less(b, a)
  {
    forall a, b | Less(a, b) ensures !Less(b, a) {
      if Less(b, a) {
        LessTransitive(a, b, a);
        LessIrreflexive(a);
      }
    }
  }

  /** Every element after another is greater than it: sorted with no duplicates. */
  predicate StrictlySorted(s: seq<string>) {
    forall i, j :: 0 <= i < j < |s| ==> Less(s[i], s[j])
  }

  function Elems(s: seq<string>): set<string> {
    set x | x in s
  }

  /** `m` is in `s` and below every other element of `s`. */
  predicate IsLeast(m: string, s: set<string>) {
    m in s && forall y :: y in s && y != m ==> Less(m, y)
  }

  lemma {:induction false} LeastExists(s: set<string>)
    requires s != {}
    ensures exists m :: IsLeast(m, s)
    decreases |s|
  {
    var x :| x in s;
    if s != {x} {
      LeastExists(s - {x});
      var m :| IsLeast(m, s - {x});
      if Less(x, m) {
        forall y | y in s && y != x ensures Less(x, y) {
          if y != m {
            LessTransitive(x, m, y);
          }
        }
        assert IsLeast(x, s);
      } else {
        LessTotal(x, m);
        assert IsLeast(m, s);
      }
    } else {
      assert IsLeast(x, s);
    }
  }

  function Least(s: set<string>): (m: string)
    requires s != {}
    ensures IsLeast(m, s)
  {
    LeastExists(s);
    LessAsymmetric();
    var m :| IsLeast(m, s);
    m
  }

  /** Python's `sorted(s)` for a set of strings. */
  function SortedSet(s: set<string>): (r: seq<string>)
    ensures StrictlySorted(r)
    ensures Elems(r) == s
    ensures |r| == |s|
    decreases |s|
  {
    if s == {} then []
    else
      var m := Least(s);
      var rest := SortedSet(s - {m});
      assert Elems([m] + rest) == s by {
        forall x ensures x in Elems([m] + rest) <==> x in s {
          assert x in [m] + rest <==> x == m || x in rest;
          assert x in rest <==> x in Elems(rest);
        }
      }
      [m] + rest
  }

  lemma ElemsAppend(s: seq<string>, x: string)
    ensures Elems(s + [x]) == Elems(s) + {x}
  {
    assert forall y :: y in s + [x] <==> y in s || y == x;
  }

  lemma HeadInElems(s: seq<string>)
    ensures s != [] ==> s[0] in Elems(s)
  {
  }

  /** A strictly sorted list is determined by the set of its elements. */
  lemma {:induction false} SortedDetermined(a: seq<string>, b: seq<string>)
    requires StrictlySorted(a) && StrictlySorted(b)
    requires Elems(a) == Elems(b)
    ensures a == b
  {
    if a != [] {
      assert a[0] in Elems(b);
      assert b != [];
      assert b[0] in Elems(a);
      if a[0] != b[0] {
        var i :| 0 <= i < |a| && a[i] == b[0];
        var j :| 0 <= j < |b| && b[j] == a[0];
        assert Less(a[0], b[0]) && Less(b[0], a[0]);
        LessTransitive(a[0], b[0], a[0]);
        LessIrreflexive(a[0]);
      }
      forall x | x in a[1..] ensures x != a[0] {
        LessIrreflexive(a[0]);
      }
      forall x | x in b[1..] ensures x != b[0] {
        LessIrreflexive(b[0]);
      }
      assert Elems(a[1..]) == Elems(a) - {a[0]} by {
        assert a == [a[0]] + a[1..];
      }
      assert Elems(b[1..]) == Elems(b) - {b[0]} by {
        assert b == [b[0]] + b[1..];
      }
      SortedDetermined(a[1..], b[1..]);
      assert a == [a[0]] + a[1..] && b == [b[0]] + b[1..];
    } else {
      HeadInElems(b);
    }
  }
}
