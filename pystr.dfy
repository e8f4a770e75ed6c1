/**
 * The handful of Python `str` operations the scrapers are built from, over
 * `seq<char>`: `isspace`/`strip`, `isdigit`, `lower`/`upper` (ASCII),
 * `replace`, `in`/`index`, `split` and `join`, each with the facts the
 * rest of the model relies on.
 */
module PyStr {
  import opened Wrappers

  /** The characters Python's `str.isspace` accepts, i.e. what `strip()` removes. */
  const Whitespace: set<char> := {
    ' ', '\t', '\n', '\r', '\U{000B}', '\U{000C}',
    '\U{001C}', '\U{001D}', '\U{001E}', '\U{001F}', '\U{0085}', '\U{00A0}', '\U{1680}',
    '\U{2000}', '\U{2001}', '\U{2002}', '\U{2003}', '\U{2004}', '\U{2005}', '\U{2006}',
    '\U{2007}', '\U{2008}', '\U{2009}', '\U{200A}', '\U{2028}', '\U{2029}', '\U{202F}',
    '\U{205F}', '\U{3000}'
  }

  predicate IsDigit(c: char) { '0' <= c <= '9' }

  /** `s.isdigit()`: non-empty and every character a digit. */
  predicate IsDigits(s: string) {
    |s| > 0 && forall i :: 0 <= i < |s| ==> IsDigit(s[i])
  }

  function LowerChar(c: char): char {
    if 'A' <= c <= 'Z' then (c as int + 32) as char else c
  }

  function UpperChar(c: char): char {
    if 'a' <= c <= 'z' then (c as int - 32) as char else c
  }

  /** `s.lower()`. */
  function Lower(s: string): (r: string)
    ensures |r| == |s|
  {
    seq(|s|, i requires 0 <= i < |s| => LowerChar(s[i]))
  }

  /** `s.upper()`. */
  function Upper(s: string): (r: string)
    ensures |r| == |s|
  {
    seq(|s|, i requires 0 <= i < |s| => UpperChar(s[i]))
  }

  /** `s.replace(a, b)` for single characters `a` and `b`. */
  function ReplaceChar(s: string, a: char, b: char): (r: string)
    ensures |r| == |s|
  {
    seq(|s|, i requires 0 <= i < |s| => if s[i] == a then b else s[i])
  }

  /** `s.replace(c, '')`: every `c` dropped, the rest kept in order. */
  function RemoveChar(s: string, c: char): (r: string)
    ensures |r| <= |s|
    ensures forall i :: 0 <= i < |r| ==> r[i] != c
  {
    if s == [] then []
    else if s[0] == c then RemoveChar(s[1..], c)
    else [s[0]] + RemoveChar(s[1..], c)
  }

  /** Removing a character the text does not hold leaves the text as it is. */
  lemma RemoveCharAbsent(s: string, c: char)
    requires forall i :: 0 <= i < |s| ==> s[i] != c
    ensures RemoveChar(s, c) == s
  {
    if s != [] {
      RemoveCharAbsent(s[1..], c);
      assert s == [s[0]] + s[1..];
    }
  }

  // ---------------------------------------------------------------- strip

  /** `s.lstrip(cs)`. */
  function TrimLeft(s: string, cs: set<char>): (r: string)
    ensures |r| <= |s|
  {
    if |s| > 0 && s[0] in cs then TrimLeft(s[1..], cs) else s
  }

  /** `lstrip` keeps a suffix that does not start with a character of `cs`, and removes only those. */
  lemma {:induction false} TrimLeftShape(s: string, cs: set<char>)
    ensures var r := TrimLeft(s, cs);
      r == s[|s| - |r|..] && (r == [] || r[0] !in cs) &&
      forall i :: 0 <= i < |s| - |r| ==> s[i] in cs
  {
    if |s| > 0 && s[0] in cs {
      TrimLeftShape(s[1..], cs);
    }
  }

  /** `s.rstrip(cs)`. */
  function TrimRight(s: string, cs: set<char>): (r: string)
    ensures |r| <= |s|
  {
    if |s| > 0 && s[|s| - 1] in cs then TrimRight(s[..|s| - 1], cs) else s
  }

  /** `rstrip` keeps a prefix that does not end with a character of `cs`, and removes only those. */
  lemma {:induction false} TrimRightShape(s: string, cs: set<char>)
    ensures var r := TrimRight(s, cs);
      r == s[..|r|] && (r == [] || r[|r| - 1] !in cs) &&
      forall i :: |r| <= i < |s| ==> s[i] in cs
  {
    if |s| > 0 && s[|s| - 1] in cs {
      TrimRightShape(s[..|s| - 1], cs);
    }
  }

  /** `s.strip(cs)`: the longest infix that neither starts nor ends with a character of `cs`. */
  function StripChars(s: string, cs: set<char>): (r: string)
    ensures |r| <= |s|
  {
    TrimRight(TrimLeft(s, cs), cs)
  }

  /** `s.strip()`. */
  function Strip(s: string): (r: string)
    ensures |r| <= |s|
  {
    StripChars(s, Whitespace)
  }

  /**
   * Stripping keeps the infix `s[k..k + |r|]` for `k` the number of leading
   * characters removed; it neither starts nor ends with a character of `cs`,
   * and everything removed on either side is in `cs`.
   */
  lemma StripCharsShape(s: string, cs: set<char>)
    ensures var r := StripChars(s, cs);
      var k := |s| - |TrimLeft(s, cs)|;
      k + |r| <= |s| && r == s[k..k + |r|] &&
      (r == [] || (r[0] !in cs && r[|r| - 1] !in cs)) &&
      (forall i :: 0 <= i < k ==> s[i] in cs) &&
      (forall i :: k + |r| <= i < |s| ==> s[i] in cs)
  {
    var l := TrimLeft(s, cs);
    var k := |s| - |l|;
    var r := TrimRight(l, cs);
    TrimLeftShape(s, cs);
    TrimRightShape(l, cs);
    assert l == s[k..];
    assert r == l[..|r|];
    if r != [] {
      assert r[0] == l[0];
    }
    forall i | k + |r| <= i < |s| ensures s[i] in cs {
      assert s[i] == l[i - k];
    }
  }

  /** A string with no character of `cs` at either end is left alone. */
  lemma StripCharsStripped(s: string, cs: set<char>)
    requires s == [] || (s[0] !in cs && s[|s| - 1] !in cs)
    ensures StripChars(s, cs) == s
  {
  }

  /** Stripping twice is stripping once. */
  lemma StripCharsIdempotent(s: string, cs: set<char>)
    ensures StripChars(StripChars(s, cs), cs) == StripChars(s, cs)
  {
    StripCharsShape(s, cs);
    StripCharsStripped(StripChars(s, cs), cs);
  }

  // ---------------------------------------------------------------- search

  /** `sub` occurs in `s` starting at index `i`. */
  predicate OccursAt(s: string, sub: string, i: int) {
    0 <= i && i + |sub| <= |s| && s[i..i + |sub|] == sub
  }

  /** The first occurrence of `sub` in `s` at or after `from`. */
  function FindFrom(s: string, sub: string, from: nat): (r: Option<nat>)
    requires from <= |s|
    decreases |s| - from
    ensures r.Some? ==> from <= r.value && r.value + |sub| <= |s|
  {
    if from + |sub| > |s| then None
    else if s[from..from + |sub|] == sub then Some(from)
    else FindFrom(s, sub, from + 1)
  }

  /** `FindFrom` finds the first occurrence at or after `from`, and finds none only when there is none. */
  lemma {:induction false} FindFromSpec(s: string, sub: string, from: nat)
    requires from <= |s|
    decreases |s| - from
    ensures var r := FindFrom(s, sub, from);
      (r.Some? ==> from <= r.value && OccursAt(s, sub, r.value)) &&
      (r.Some? ==> forall j :: from <= j < r.value ==> !OccursAt(s, sub, j)) &&
      (r.None? ==> forall j :: from <= j ==> !OccursAt(s, sub, j))
  {
    if from + |sub| <= |s| && s[from..from + |sub|] != sub {
      FindFromSpec(s, sub, from + 1);
    }
  }

  /** `s.find(sub)`, with `None` for -1; `s.index(sub)` when it is `Some`. */
  function Find(s: string, sub: string): (r: Option<nat>)
    ensures r.Some? ==> r.value + |sub| <= |s|
  {
    FindFrom(s, sub, 0)
  }

  /** `Find` gives the first occurrence, and none exactly when `sub` does not occur. */
  lemma FindSpec(s: string, sub: string)
    ensures var r := Find(s, sub);
      (r.Some? ==> OccursAt(s, sub, r.value) && forall j :: 0 <= j < r.value ==> !OccursAt(s, sub, j)) &&
      (r.None? <==> forall j :: !OccursAt(s, sub, j))
  {
    FindFromSpec(s, sub, 0);
  }

  /** `i` is where `sub` first occurs in `s`. */
  predicate FirstOccurrence(s: string, sub: string, i: int) {
    OccursAt(s, sub, i) && forall j :: 0 <= j < i ==> !OccursAt(s, sub, j)
  }

  /** `Find` gives exactly the first occurrence. */
  lemma FindFirst(s: string, sub: string, i: int)
    ensures Find(s, sub) == Some(i) <==> FirstOccurrence(s, sub, i)
  {
    FindSpec(s, sub);
  }

  /** `sub in s`. */
  predicate Contains(s: string, sub: string) {
    Find(s, sub).Some?
  }

  /** Any occurrence makes `sub in s` true. */
  lemma ContainsAt(s: string, sub: string, i: int)
    requires OccursAt(s, sub, i)
    ensures Contains(s, sub)
  {
    FindSpec(s, sub);
  }

  /** `sub in a + sub + b`. */
  lemma ContainsMiddle(a: string, sub: string, b: string)
    ensures Contains(a + sub + b, sub)
  {
    var s := a + sub + b;
    assert s[|a|..|a| + |sub|] == sub;
    ContainsAt(s, sub, |a|);
  }

  /** Text appended after the first occurrence does not move it. */
  lemma FindExtend(a: string, sub: string, b: string)
    requires Find(a, sub).Some?
    ensures Find(a + b, sub) == Find(a, sub)
  {
    FindSpec(a, sub);
    FindSpec(a + b, sub);
    var i := Find(a, sub).value;
    assert (a + b)[i..i + |sub|] == a[i..i + |sub|];
    assert OccursAt(a + b, sub, i);
    forall j | 0 <= j < i ensures !OccursAt(a + b, sub, j) {
      assert !OccursAt(a, sub, j);
      assert (a + b)[j..j + |sub|] == a[j..j + |sub|];
    }
    var r := Find(a + b, sub);
    assert r.Some?;
    assert r.value <= i;
  }

  /** A string that does not hold `sub` does not hold it in any of its infixes. */
  lemma NotContainsInfix(s: string, sub: string, lo: nat, hi: nat)
    requires lo <= hi <= |s|
    requires !Contains(s, sub)
    ensures !Contains(s[lo..hi], sub)
  {
    var t := s[lo..hi];
    FindSpec(s, sub);
    FindSpec(t, sub);
    if Contains(t, sub) {
      var j := Find(t, sub).value;
      assert s[lo + j..lo + j + |sub|] == t[j..j + |sub|];
      assert OccursAt(s, sub, lo + j);
    }
  }

  // ---------------------------------------------------------------- split and join

  /** `sep.join(parts)`. */
  function Join(parts: seq<string>, sep: string): string
  {
    if |parts| == 0 then ""
    else if |parts| == 1 then parts[0]
    else parts[0] + sep + Join(parts[1..], sep)
  }

  /** `s.split(sep)` for a non-empty separator (Python raises on an empty one). */
  function Split(s: string, sep: string): (r: seq<string>)
    requires |sep| > 0
    decreases |s|
    ensures |r| >= 1
  {
    match Find(s, sep)
    case None => [s]
    case Some(i) => [s[..i]] + Split(s[i + |sep|..], sep)
  }

  /** The last element of a non-empty list, `parts[-1]`. */
  function Last<T>(parts: seq<T>): T
    requires |parts| > 0
  {
    parts[|parts| - 1]
  }

  /** Joining with one more element at the end. */
  lemma {:induction false} JoinSnoc(parts: seq<string>, sep: string)
    requires |parts| >= 2
    ensures Join(parts, sep) == Join(parts[..|parts| - 1], sep) + sep + Last(parts)
  {
    if |parts| == 2 {
      assert parts[..1] == [parts[0]];
    } else {
      JoinSnoc(parts[1..], sep);
      assert parts[1..][..|parts| - 2] == parts[..|parts| - 1][1..];
    }
  }

  /** `sep.join(s.split(sep)) == s`. */
  lemma {:induction false} SplitJoin(s: string, sep: string)
    requires |sep| > 0
    ensures Join(Split(s, sep), sep) == s
  {
    var f := Find(s, sep);
    FindSpec(s, sep);
    if f.Some? {
      var i := f.value;
      var rest := s[i + |sep|..];
      var tail := Split(rest, sep);
      var parts := [s[..i]] + tail;
      assert Split(s, sep) == parts;
      assert parts[1..] == tail;
      SplitJoin(rest, sep);
      assert Join(parts, sep) == s[..i] + sep + Join(tail, sep);
      assert s[i..i + |sep|] == sep;
      assert s == s[..i] + sep + rest;
    }
  }

  /** No piece of a split holds the separator. */
  lemma {:induction false} SplitPiecesFree(s: string, sep: string)
    requires |sep| > 0
    ensures forall k :: 0 <= k < |Split(s, sep)| ==> !Contains(Split(s, sep)[k], sep)
  {
    FindSpec(s, sep);
    match Find(s, sep)
    case None =>
    case Some(i) =>
      var rest := s[i + |sep|..];
      SplitPiecesFree(rest, sep);
      FindSpec(s[..i], sep);
      if Contains(s[..i], sep) {
        var j := Find(s[..i], sep).value;
        assert s[j..j + |sep|] == s[..i][j..j + |sep|];
        assert OccursAt(s, sep, j);
      }
  }

  /** `sep in s` exactly when the split has more than one piece. */
  lemma SplitMany(s: string, sep: string)
    requires |sep| > 0
    ensures |Split(s, sep)| > 1 <==> Contains(s, sep)
  {
  }

  /**
   * `s.split(sep)[-1]` is what follows the last occurrence of the separator:
   * `s` is the other pieces joined, the separator, then that last piece.
   */
  lemma SplitLast(s: string, sep: string)
    requires |sep| > 0
    requires Contains(s, sep)
    ensures var parts := Split(s, sep);
      s == Join(parts[..|parts| - 1], sep) + sep + Last(parts) && !Contains(Last(parts), sep)
  {
    var parts := Split(s, sep);
    SplitJoin(s, sep);
    JoinSnoc(parts, sep);
    SplitPiecesFree(s, sep);
  }

  /** `s.split(sep)[0]` is what precedes the first occurrence (all of `s` if none). */
  lemma SplitFirst(s: string, sep: string)
    requires |sep| > 0
    ensures Split(s, sep)[0] == match Find(s, sep) case Some(i) => s[..i] case None => s
  {
  }

  /**
   * A single-character separator splits first at its first occurrence: a
   * text free of it, the separator, then the rest.
   */
  lemma SplitAtFirst(a: string, c: char, rest: string)
    requires !Contains(a, [c])
    ensures Split(a + [c] + rest, [c]) == [a] + Split(rest, [c])
  {
    var s := a + [c] + rest;
    FindSpec(s, [c]);
    assert s[|a|..|a| + 1] == [c];
    assert OccursAt(s, [c], |a|);
    forall j | 0 <= j < |a| ensures !OccursAt(s, [c], j) {
      if OccursAt(s, [c], j) {
        assert a[j..j + 1] == s[j..j + 1];
        ContainsAt(a, [c], j);
      }
    }
    assert Find(s, [c]) == Some(|a|);
    assert s[..|a|] == a;
    assert s[|a| + 1..] == rest;
  }

  /** A text none of whose characters is `c` does not hold `c`. */
  lemma CharFree(s: string, c: char)
    requires forall i :: 0 <= i < |s| ==> s[i] != c
    ensures !Contains(s, [c])
  {
    forall j ensures !OccursAt(s, [c], j) {
      if 0 <= j < |s| {
        assert s[j..j + 1] == [s[j]];
      }
    }
    FindSpec(s, [c]);
  }

  /** `s.rsplit(c, 1)`: the text cut at the last occurrence of `c`, or `[s]` when there is none. */
  function RSplitOnce(s: string, c: char): seq<string> {
    var parts := Split(s, [c]);
    if |parts| > 1 then [Join(parts[..|parts| - 1], [c]), Last(parts)] else [s]
  }

  /**
   * `rsplit` cuts in two exactly when `c` occurs; joining the pieces back
   * gives the text, and the last piece holds no `c`, so the cut is at its
   * last occurrence.
   */
  lemma RSplitOnceSpec(s: string, c: char)
    ensures var r := RSplitOnce(s, c);
      (|r| == 2 <==> Contains(s, [c])) && (|r| == 1 <==> !Contains(s, [c])) &&
      Join(r, [c]) == s && !Contains(Last(r), [c])
  {
    var parts := Split(s, [c]);
    SplitMany(s, [c]);
    if |parts| > 1 {
      SplitLast(s, [c]);
    }
  }

  /** The last piece of a split ends the text and holds no separator. */
  lemma LastPieceEnds(s: string, sep: string)
    requires |sep| > 0
    ensures EndsWith(s, Last(Split(s, sep))) && !Contains(Last(Split(s, sep)), sep)
  {
    SplitPiecesFree(s, sep);
    if Contains(s, sep) {
      SplitLast(s, sep);
    }
  }

  /** The last piece of `a + " " + b` split at spaces is `b`, when `b` holds no space. */
  lemma LastTokenAfterSpace(a: string, b: string)
    requires !Contains(b, " ")
    ensures Last(Split(a + " " + b, " ")) == b
  {
    var s := a + " " + b;
    assert OccursAt(s, " ", |a|);
    ContainsAt(s, " ", |a|);
    SplitLast(s, " ");
    var parts := Split(s, " ");
    var l := Last(parts);
    var j := Join(parts[..|parts| - 1], " ");
    assert s == j + " " + l;
    assert |l| <= |b| by {
      if |l| > |b| {
        var k := |l| - |b| - 1;
        assert l[k] == s[|j| + 1 + k] == s[|a|] == ' ';
        assert OccursAt(l, " ", k);
        ContainsAt(l, " ", k);
        assert false;
      }
    }
    assert |l| >= |b| by {
      if |l| < |b| {
        var k := |j| - |a| - 1;
        assert b[k] == s[|j|] == ' ';
        assert OccursAt(b, " ", k);
        ContainsAt(b, " ", k);
        assert false;
      }
    }
    assert l == s[|s| - |l|..] == b;
  }

  /** `s.startswith(p)`. */
  predicate StartsWith(s: string, p: string) {
    |p| <= |s| && s[..|p|] == p
  }

  /** `s.endswith(p)`. */
  predicate EndsWith(s: string, p: string) {
    |p| <= |s| && s[|s| - |p|..] == p
  }
}
