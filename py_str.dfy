/**
 * The few operations on Python `str` values that the documentation hook and
 * the chat proxy use, written as functions on `seq<char>`, each with the
 * property that characterises it.
 */
module PyStr {

  /** Python's `str.isspace()` for a single character (CPython's table). */
  predicate IsSpace(c: char) {
    var n := c as int;
    (9 <= n <= 13) || (28 <= n <= 32) || n == 0x85 || n == 0xA0 || n == 0x1680
    || (0x2000 <= n <= 0x200A) || n == 0x2028 || n == 0x2029 || n == 0x202F
    || n == 0x205F || n == 0x3000
  }

  /** `s.startswith(prefix)` */
  predicate StartsWith(s: string, prefix: string) {
    |prefix| <= |s| && s[..|prefix|] == prefix
  }

  /** `s.endswith(suffix)` */
  predicate EndsWith(s: string, suffix: string) {
    |suffix| <= |s| && s[|s| - |suffix|..] == suffix
  }

  /** `pat` occurs in `s` starting at index `i`. */
  predicate MatchAt(s: string, i: nat, pat: string) {
    i + |pat| <= |s| && s[i..i + |pat|] == pat
  }

  /** `pat in s` */
  predicate Contains(s: string, pat: string) {
    exists i: nat | i <= |s| :: MatchAt(s, i, pat)
  }

  lemma MatchAtTail(s: string, i: nat, pat: string)
    requires s != [] && MatchAt(s[1..], i, pat)
    ensures MatchAt(s, i + 1, pat)
  {
    assert s[i + 1..i + 1 + |pat|] == s[1..][i..i + |pat|];
  }

  // ---------------------------------------------------------------------------
  // str.replace(pat, rep): a left-to-right scan replacing non-overlapping
  // occurrences of a non-empty pattern.

  function Replace(s: string, pat: string, rep: string): string
    requires pat != []
    decreases |s|
  {
    if |s| < |pat| then s
    else if s[..|pat|] == pat then rep + Replace(s[|pat|..], pat, rep)
    else [s[0]] + Replace(s[1..], pat, rep)
  }

  /** A string without an occurrence of the pattern is left as it is. */
  lemma {:induction false} ReplaceAbsent(s: string, pat: string, rep: string)
    requires pat != [] && !Contains(s, pat)
    ensures Replace(s, pat, rep) == s
    decreases |s|
  {
    if |s| >= |pat| {
      assert !MatchAt(s, 0, pat);
      forall i: nat | MatchAt(s[1..], i, pat) ensures false {
        MatchAtTail(s, i, pat);
      }
      ReplaceAbsent(s[1..], pat, rep);
    }
  }

  /** One step of the scan when no occurrence starts at index 0. */
  lemma ReplaceCopyStep(s: string, pat: string, rep: string)
    requires pat != [] && s != [] && !MatchAt(s, 0, pat)
    ensures Replace(s, pat, rep) == [s[0]] + Replace(s[1..], pat, rep)
  {
  }

  /**
   * The leftmost occurrence is the one replaced: when no occurrence of `pat`
   * starts inside `a`, the text before it is copied and the scan resumes
   * after it.
   */
  lemma {:induction false} ReplaceLeftmost(a: string, b: string, pat: string, rep: string)
    requires pat != []
    requires forall i: nat :: i < |a| ==> !MatchAt(a + pat + b, i, pat)
    ensures Replace(a + pat + b, pat, rep) == a + rep + Replace(b, pat, rep)
    decreases |a|
  {
    var s := a + pat + b;
    if a == [] {
      assert s == pat + b && s[..|pat|] == pat && s[|pat|..] == b;
    } else {
      var s1 := a[1..] + pat + b;
      assert s[1..] == s1;
      ReplaceCopyStep(s, pat, rep);
      forall i: nat | i < |a[1..]| ensures !MatchAt(s1, i, pat) {
        if MatchAt(s1, i, pat) {
          MatchAtTail(s, i, pat);
        }
      }
      ReplaceLeftmost(a[1..], b, pat, rep);
      assert [a[0]] + a[1..] == a;
    }
  }

  /** Every character of the result comes from the input or from `rep`. */
  lemma {:induction false} ReplaceChars(s: string, pat: string, rep: string, c: char)
    requires pat != [] && c in Replace(s, pat, rep)
    ensures c in s || c in rep
    decreases |s|
  {
    if |s| < |pat| {
    } else if s[..|pat|] == pat {
      var t := s[|pat|..];
      if c !in rep {
        ReplaceChars(t, pat, rep, c);
        var k :| 0 <= k < |t| && t[k] == c;
        assert s[|pat| + k] == c;
      }
    } else {
      var t := s[1..];
      if c != s[0] && c !in rep {
        ReplaceChars(t, pat, rep, c);
        var k :| 0 <= k < |t| && t[k] == c;
        assert s[1 + k] == c;
      }
    }
  }

  /** The first occurrence is the one replaced when the text before it lacks the pattern's first character. */
  lemma ReplaceFirst(a: string, b: string, pat: string, rep: string)
    requires pat != [] && pat[0] !in a
    ensures Replace(a + pat + b, pat, rep) == a + rep + Replace(b, pat, rep)
  {
    forall i: nat | i < |a| ensures !MatchAt(a + pat + b, i, pat) {
      assert (a + pat + b)[i] == a[i];
    }
    ReplaceLeftmost(a, b, pat, rep);
  }

  /** Two occurrences, each preceded by text lacking the pattern's first character, are both replaced. */
  lemma ReplaceBoth(a: string, b: string, pat: string, rep: string)
    requires pat != [] && pat[0] !in a && pat[0] !in b
    ensures Replace(a + pat + b + pat, pat, rep) == a + rep + b + rep
  {
    var tail := b + pat;
    ReplaceFirst(b, [], pat, rep);
    assert b + pat + [] == tail;
    assert Replace([], pat, rep) == [];
    assert Replace(tail, pat, rep) == b + rep;
    ReplaceFirst(a, tail, pat, rep);
    assert a + pat + tail == a + pat + b + pat;
  }

  /** Replacing one character by another is a character-wise map. */
  lemma {:induction false} ReplaceChar(s: string, a: char, b: char)
    ensures |Replace(s, [a], [b])| == |s|
    ensures forall i :: 0 <= i < |s| ==>
      Replace(s, [a], [b])[i] == (if s[i] == a then b else s[i])
    decreases |s|
  {
    if s != [] {
      ReplaceChar(s[1..], a, b);
    }
  }

  /** Replacing a character that does not occur changes nothing. */
  lemma ReplaceCharAbsent(s: string, a: char, b: char)
    requires a !in s
    ensures Replace(s, [a], [b]) == s
  {
    ReplaceChar(s, a, b);
  }

  /** A prefix of a replaced string made of pattern characters only was copied from the input. */
  lemma {:induction false} ReplacePrefixCopied(t: string, pat: string, rep: string, k: nat)
    requires pat != [] && rep != []
    requires forall j :: 0 <= j < |rep| ==> rep[j] !in pat
    requires k <= |Replace(t, pat, rep)|
    requires forall j :: 0 <= j < k ==> Replace(t, pat, rep)[j] in pat
    ensures k <= |t| && Replace(t, pat, rep)[..k] == t[..k]
    decreases |t|
  {
    var r := Replace(t, pat, rep);
    if |t| < |pat| {
    } else if t[..|pat|] == pat {
      assert r[0] == rep[0];
    } else if k > 0 {
      var r1 := Replace(t[1..], pat, rep);
      assert r == [t[0]] + r1;
      forall j | 0 <= j < k - 1 ensures r1[j] in pat {
        assert r1[j] == r[j + 1];
      }
      ReplacePrefixCopied(t[1..], pat, rep, k - 1);
      assert r[..k] == [t[0]] + r1[..k - 1];
      assert t[..k] == [t[0]] + t[1..][..k - 1];
    }
  }

  /** An occurrence that starts in the tail of `x + rt` is an occurrence in `rt`. */
  lemma NoMatchInTail(x: string, rt: string, pat: string, i: nat)
    requires !Contains(rt, pat) && i >= |x|
    ensures !MatchAt(x + rt, i, pat)
  {
    if i + |pat| <= |x + rt| {
      assert (x + rt)[i..i + |pat|] == rt[i - |x|..i - |x| + |pat|];
      assert !MatchAt(rt, i - |x|, pat);
    }
  }

  /** A replacement sharing no character with the pattern creates no occurrence in front of the rest. */
  lemma NoMatchAfterReplacement(rep: string, rt: string, pat: string)
    requires pat != [] && !Contains(rt, pat)
    requires forall j :: 0 <= j < |rep| ==> rep[j] !in pat
    ensures !Contains(rep + rt, pat)
  {
    var r := rep + rt;
    forall i: nat | i <= |r| ensures !MatchAt(r, i, pat) {
      if i >= |rep| {
        NoMatchInTail(rep, rt, pat, i);
      } else if i + |pat| <= |r| {
        assert r[i..i + |pat|][0] == rep[i];
      }
    }
  }

  /**
   * An occurrence at the start of `[s[0]] + Replace(s[1..])` was already one
   * at the start of `s`, when the replacement shares no character with the pattern.
   */
  lemma MatchAtStartCopied(s: string, pat: string, rep: string)
    requires pat != [] && rep != [] && s != []
    requires forall j :: 0 <= j < |rep| ==> rep[j] !in pat
    ensures MatchAt([s[0]] + Replace(s[1..], pat, rep), 0, pat) ==> MatchAt(s, 0, pat)
  {
    var t := s[1..];
    var rt := Replace(t, pat, rep);
    var r := [s[0]] + rt;
    var k := |pat| - 1;
    if MatchAt(r, 0, pat) {
      forall j | 0 <= j < k ensures rt[j] in pat {
        assert rt[j] == r[j + 1] == pat[j + 1];
      }
      ReplacePrefixCopied(t, pat, rep, k);
      assert s[..|pat|] == [s[0]] + t[..k];
      assert r[..|pat|] == [s[0]] + rt[..k];
    }
  }

  /** A copied character that starts no occurrence creates none in front of the rest. */
  lemma NoMatchAfterCopy(s: string, pat: string, rep: string)
    requires pat != [] && rep != [] && |s| >= |pat| && !MatchAt(s, 0, pat)
    requires forall j :: 0 <= j < |rep| ==> rep[j] !in pat
    requires !Contains(Replace(s[1..], pat, rep), pat)
    ensures !Contains([s[0]] + Replace(s[1..], pat, rep), pat)
  {
    var r := [s[0]] + Replace(s[1..], pat, rep);
    MatchAtStartCopied(s, pat, rep);
    forall i: nat | i <= |r| ensures !MatchAt(r, i, pat) {
      if i > 0 {
        NoMatchInTail([s[0]], Replace(s[1..], pat, rep), pat, i);
      }
    }
  }

  /**
   * When the replacement shares no character with the pattern, no occurrence
   * of the pattern survives: every one of them was replaced.
   */
  lemma {:induction false} ReplaceRemovesAll(s: string, pat: string, rep: string)
    requires pat != [] && rep != []
    requires forall j :: 0 <= j < |rep| ==> rep[j] !in pat
    ensures !Contains(Replace(s, pat, rep), pat)
    decreases |s|
  {
    if |s| < |pat| {
      forall i: nat | i <= |s| ensures !MatchAt(s, i, pat) {
      }
    } else if s[..|pat|] == pat {
      ReplaceRemovesAll(s[|pat|..], pat, rep);
      NoMatchAfterReplacement(rep, Replace(s[|pat|..], pat, rep), pat);
    } else {
      ReplaceRemovesAll(s[1..], pat, rep);
      NoMatchAfterCopy(s, pat, rep);
    }
  }

  // ---------------------------------------------------------------------------
  // str.lstrip() / str.rstrip() / str.strip() with no argument, and
  // str.rstrip(c) for a single character.

  function LStrip(s: string): string
    decreases |s|
  {
    if s != [] && IsSpace(s[0]) then LStrip(s[1..]) else s
  }

  function RStrip(s: string): string
    decreases |s|
  {
    if s != [] && IsSpace(s[|s| - 1]) then RStrip(s[..|s| - 1]) else s
  }

  /** `s.strip()` */
  function Strip(s: string): string {
    RStrip(LStrip(s))
  }

  /** `lstrip` drops the leading whitespace and nothing else. */
  lemma {:induction false} LStripShape(s: string)
    ensures |LStrip(s)| <= |s| && LStrip(s) == s[|s| - |LStrip(s)|..]
    ensures forall k :: 0 <= k < |s| - |LStrip(s)| ==> IsSpace(s[k])
    ensures LStrip(s) == [] || !IsSpace(LStrip(s)[0])
    decreases |s|
  {
    if s != [] && IsSpace(s[0]) {
      LStripShape(s[1..]);
    }
  }

  /** `rstrip` drops the trailing whitespace and nothing else. */
  lemma {:induction false} RStripShape(s: string)
    ensures |RStrip(s)| <= |s| && RStrip(s) == s[..|RStrip(s)|]
    ensures forall k :: |RStrip(s)| <= k < |s| ==> IsSpace(s[k])
    ensures RStrip(s) == [] || !IsSpace(RStrip(s)[|RStrip(s)| - 1])
    decreases |s|
  {
    if s != [] && IsSpace(s[|s| - 1]) {
      RStripShape(s[..|s| - 1]);
    }
  }

  /**
   * What `strip` keeps is the infix of `s` between its leading and its
   * trailing whitespace: it neither starts nor ends with whitespace.
   */
  lemma StripShape(s: string) returns (i: nat)
    ensures i + |Strip(s)| <= |s| && Strip(s) == s[i..i + |Strip(s)|]
    ensures forall k :: 0 <= k < i ==> IsSpace(s[k])
    ensures forall k :: i + |Strip(s)| <= k < |s| ==> IsSpace(s[k])
    ensures Strip(s) == [] || (!IsSpace(Strip(s)[0]) && !IsSpace(Strip(s)[|Strip(s)| - 1]))
  {
    var l := LStrip(s);
    LStripShape(s);
    RStripShape(l);
    i := |s| - |l|;
    var r := RStrip(l);
    assert r == s[i..i + |r|];
  }

  /** Stripping twice strips nothing more. */
  lemma StripIdempotent(s: string)
    ensures Strip(Strip(s)) == Strip(s)
  {
    var t := Strip(s);
    var _ := StripShape(s);
    assert LStrip(t) == t;
    assert RStrip(t) == t;
  }

  /** `s.rstrip(c)`: `s` without the run of `c` at its end. */
  function RStripChar(s: string, c: char): (r: string)
    ensures |r| <= |s| && r == s[..|r|]
    ensures forall k :: |r| <= k < |s| ==> s[k] == c
    ensures r == [] || r[|r| - 1] != c
    decreases |s|
  {
    if s != [] && s[|s| - 1] == c then RStripChar(s[..|s| - 1], c) else s
  }

  // ---------------------------------------------------------------------------
  // str.split(sep) with an explicit one-character separator, and sep.join.

  function Split(s: string, sep: char): (parts: seq<string>)
    ensures |parts| >= 1
    ensures forall p :: p in parts ==> sep !in p
    decreases |s|
  {
    if s == [] then [[]]
    else
      var rest := Split(s[1..], sep);
      if s[0] == sep then [[]] + rest
      else [[s[0]] + rest[0]] + rest[1..]
  }

  function Join(parts: seq<string>, sep: char): string {
    if parts == [] then []
    else if |parts| == 1 then parts[0]
    else parts[0] + [sep] + Join(parts[1..], sep)
  }

  /** Joining the pieces of a split gives back the original string. */
  lemma {:induction false} JoinSplit(s: string, sep: char)
    ensures Join(Split(s, sep), sep) == s
    decreases |s|
  {
    if s != [] {
      var rest := Split(s[1..], sep);
      JoinSplit(s[1..], sep);
      if s[0] == sep {
        assert Split(s, sep)[1..] == rest;
      } else {
        var parts := Split(s, sep);
        assert parts[1..] == rest[1..];
        if |rest| > 1 {
          assert Join(rest, sep) == rest[0] + [sep] + Join(rest[1..], sep);
        }
      }
    }
  }

  lemma {:induction false} SplitAtSeparator(p: string, t: string, sep: char)
    requires sep !in p
    ensures Split(p + [sep] + t, sep) == [p] + Split(t, sep)
    decreases |p|
  {
    var s := p + [sep] + t;
    if p == [] {
      assert s[1..] == t;
    } else {
      assert s[1..] == p[1..] + [sep] + t;
      SplitAtSeparator(p[1..], t, sep);
      assert [p[0]] + p[1..] == p;
    }
  }

  lemma {:induction false} SplitNoSeparator(p: string, sep: char)
    requires sep !in p
    ensures Split(p, sep) == [p]
    decreases |p|
  {
    if p != [] {
      SplitNoSeparator(p[1..], sep);
      assert [p[0]] + p[1..] == p;
    }
  }

  /** Splitting a join of separator-free pieces gives back the pieces. */
  lemma {:induction false} SplitJoin(parts: seq<string>, sep: char)
    requires |parts| >= 1
    requires forall i :: 0 <= i < |parts| ==> sep !in parts[i]
    ensures Split(Join(parts, sep), sep) == parts
    decreases |parts|
  {
    if |parts| == 1 {
      SplitNoSeparator(parts[0], sep);
    } else {
      SplitJoin(parts[1..], sep);
      SplitAtSeparator(parts[0], Join(parts[1..], sep), sep);
      assert [parts[0]] + parts[1..] == parts;
    }
  }

  // ---------------------------------------------------------------------------
  // str.title(), for ASCII letters: a letter becomes upper case at the start
  // of a word (after a character that is not a letter) and lower case inside one.

  predicate IsCased(c: char) {
    'a' <= c <= 'z' || 'A' <= c <= 'Z'
  }

  function ToUpper(c: char): (u: char)
    ensures IsCased(u) == IsCased(c)
    ensures !('a' <= u <= 'z')
  {
    if 'a' <= c <= 'z' then (c as int - 32) as char else c
  }

  function ToLower(c: char): (l: char)
    ensures IsCased(l) == IsCased(c)
    ensures !('A' <= l <= 'Z')
  {
    if 'A' <= c <= 'Z' then (c as int + 32) as char else c
  }

  /** The character `str.title()` puts at index `i` of `s`. */
  function TitleCharAt(s: string, i: nat): char
    requires i < |s|
  {
    if i == 0 || !IsCased(s[i - 1]) then ToUpper(s[i]) else ToLower(s[i])
  }

  function TitleFrom(s: string, prevCased: bool): (r: string)
    ensures |r| == |s|
    ensures s != [] ==> r[0] == (if prevCased then ToLower(s[0]) else ToUpper(s[0]))
    ensures forall i :: 0 < i < |s| ==>
      r[i] == (if IsCased(s[i - 1]) then ToLower(s[i]) else ToUpper(s[i]))
    decreases |s|
  {
    if s == [] then []
    else [if prevCased then ToLower(s[0]) else ToUpper(s[0])] + TitleFrom(s[1..], IsCased(s[0]))
  }

  function Title(s: string): (r: string)
    ensures |r| == |s|
    ensures forall i :: 0 <= i < |s| ==> r[i] == TitleCharAt(s, i)
  {
    TitleFrom(s, false)
  }

  /** Title-casing a title-cased string changes nothing. */
  lemma TitleIdempotent(s: string)
    ensures Title(Title(s)) == Title(s)
  {
    var t := Title(s);
    forall i | 0 <= i < |s| ensures Title(t)[i] == t[i] {
      if i > 0 {
        assert IsCased(t[i - 1]) == IsCased(s[i - 1]);
      }
    }
  }

  // ---------------------------------------------------------------------------
  // str.rfind(c) and pathlib's Path.stem.

  function LastIndexOf(s: string, c: char): (r: int)
    ensures -1 <= r < |s|
    ensures r >= 0 ==> s[r] == c
    ensures forall k :: r < k < |s| ==> s[k] != c
    decreases |s|
  {
    if s == [] then -1
    else if s[|s| - 1] == c then |s| - 1
    else LastIndexOf(s[..|s| - 1], c)
  }

  /**
   * `PurePath(name).stem`: the name without its last suffix, where a suffix
   * is a final `.` followed by at least one character and preceded by at
   * least one.
   */
  function Stem(name: string): (stem: string)
    ensures StartsWith(name, stem)
    ensures stem == name || (0 < |stem| < |name| - 1 && name[|stem|] == '.'
                             && '.' !in name[|stem| + 1..])
  {
    var i := LastIndexOf(name, '.');
    if 0 < i < |name| - 1 then name[..i] else name
  }

  /**
   * The name is kept whole exactly when it has no suffix: it is empty, has
   * no `.` after its first character, or ends in `.`.
   */
  lemma StemKeepsName(name: string)
    ensures Stem(name) == name <==>
      (name == [] || '.' !in name[1..] || name[|name| - 1] == '.')
  {
    var i := LastIndexOf(name, '.');
    if name != [] && '.' in name[1..] && name[|name| - 1] != '.' {
      var k :| 0 <= k < |name[1..]| && name[1..][k] == '.';
      assert name[k + 1] == '.';
      assert 1 <= k + 1 <= i < |name| - 1;
      assert |Stem(name)| == i;
    }
  }

  /** The stem of a Markdown file name `base.md` is `base` when `base` is non-empty. */
  lemma StemOfMarkdown(base: string)
    requires base != []
    ensures Stem(base + ".md") == base
  {
    var name := base + ".md";
    var i := LastIndexOf(name, '.');
    assert name[|base|] == '.';
    assert i == |base|;
    assert name[..i] == base;
  }
}
