/** The Python string methods the loader relies on, over Unicode code points:
    str.strip (with and without a character argument), str.lower (ASCII part),
    str.split and str.join with a one-character separator, str.endswith and
    str.replace with an empty replacement. */
module Text {
  import opened Wrappers

  /** The characters str.strip() removes when it is given no argument: those
      for which str.isspace() holds. */
  const Whitespace: set<char> := {
    '\t', '\n', '\U{0B}', '\U{0C}', '\r', '\U{1C}', '\U{1D}', '\U{1E}', '\U{1F}', ' ',
    '\U{85}', '\U{A0}', '\U{1680}',
    '\U{2000}', '\U{2001}', '\U{2002}', '\U{2003}', '\U{2004}', '\U{2005}',
    '\U{2006}', '\U{2007}', '\U{2008}', '\U{2009}', '\U{200A}',
    '\U{2028}', '\U{2029}', '\U{202F}', '\U{205F}', '\U{3000}'
  }

  /** The one character the loader passes to str.strip('"'). */
  const QuoteChars: set<char> := {'"'}

  function Min(a: int, b: int): int {
    if a <= b then a else b
  }

  /** s.lstrip(cs): drops the longest prefix made of characters in cs. */
  function StripLeft(s: string, cs: set<char>): (r: string)
    ensures |r| <= |s|
    decreases |s|
  {
    if |s| > 0 && s[0] in cs then StripLeft(s[1..], cs) else s
  }

  /** What s.lstrip(cs) leaves: a suffix of s, after a prefix of characters
      in cs, that does not itself start with one. */
  lemma {:induction false} StripLeftSpec(s: string, cs: set<char>)
    ensures var r := StripLeft(s, cs);
            && r == s[|s| - |r|..]
            && (forall k :: 0 <= k < |s| - |r| ==> s[k] in cs)
            && (|r| > 0 ==> r[0] !in cs)
    decreases |s|
  {
    if |s| > 0 && s[0] in cs {
      StripLeftSpec(s[1..], cs);
      var r := StripLeft(s, cs);
      assert forall k :: 1 <= k < |s| - |r| ==> s[k] == s[1..][k - 1];
    }
  }

  /** s.rstrip(cs): drops the longest suffix made of characters in cs. */
  function StripRight(s: string, cs: set<char>): (r: string)
    ensures |r| <= |s|
    decreases |s|
  {
    if |s| > 0 && s[|s| - 1] in cs then StripRight(s[..|s| - 1], cs) else s
  }

  /** What s.rstrip(cs) leaves: a prefix of s, before a suffix of characters
      in cs, that does not itself end with one. */
  lemma {:induction false} StripRightSpec(s: string, cs: set<char>)
    ensures var r := StripRight(s, cs);
            && r == s[..|r|]
            && (forall k :: |r| <= k < |s| ==> s[k] in cs)
            && (|r| > 0 ==> r[|r| - 1] !in cs)
    decreases |s|
  {
    if |s| > 0 && s[|s| - 1] in cs {
      StripRightSpec(s[..|s| - 1], cs);
      var r := StripRight(s, cs);
      assert forall k :: |r| <= k < |s| - 1 ==> s[k] == s[..|s| - 1][k];
    }
  }

  /** r is the infix of s that starts at i, and every character of s outside
      it is in cs. */
  predicate StrippedAt(s: string, cs: set<char>, i: int, r: string) {
    && 0 <= i <= |s| - |r|
    && r == s[i..i + |r|]
    && (forall k :: 0 <= k < i ==> s[k] in cs)
    && (forall k :: i + |r| <= k < |s| ==> s[k] in cs)
  }

  /** s.strip(cs): the infix of s left once every character of cs is removed
      from both ends. */
  function StripChars(s: string, cs: set<char>): (r: string)
    ensures |r| <= |s|
    ensures |r| > 0 ==> r[0] !in cs && r[|r| - 1] !in cs
  {
    var left := StripLeft(s, cs);
    StripLeftSpec(s, cs);
    StripRightSpec(left, cs);
    StripRight(left, cs)
  }

  /** s.strip(cs) is an infix of s outside of which every character is in cs. */
  lemma StripCharsIsInfix(s: string, cs: set<char>)
    ensures exists i :: StrippedAt(s, cs, i, StripChars(s, cs))
  {
    var left := StripLeft(s, cs);
    var r := StripRight(left, cs);
    StripLeftSpec(s, cs);
    StripRightSpec(left, cs);
    var i := |s| - |left|;
    assert forall k :: i + |r| <= k < |s| ==> s[k] == left[k - i];
    assert r == StripChars(s, cs);
    assert StrippedAt(s, cs, i, StripChars(s, cs));
  }

  /** s.strip() */
  function Strip(s: string): string {
    StripChars(s, Whitespace)
  }

  /** s.strip().strip('"'): surrounding whitespace, then surrounding double
      quotes, removed. */
  function Unquote(s: string): (r: string)
    ensures |r| <= |s|
    ensures |r| > 0 ==> r[0] != '"' && r[|r| - 1] != '"'
  {
    StripChars(Strip(s), QuoteChars)
  }

  /** Neither end of s is a character of cs. */
  predicate Bare(s: string, cs: set<char>) {
    |s| > 0 ==> s[0] !in cs && s[|s| - 1] !in cs
  }

  /** The characterisation of s.strip(cs) that does not mention how it is
      computed: the unique infix whose ends are not in cs and outside of
      which every character is in cs. */
  lemma StripCharsUnique(s: string, cs: set<char>, i: nat, j: nat)
    requires i <= j <= |s|
    requires forall k :: 0 <= k < i ==> s[k] in cs
    requires forall k :: j <= k < |s| ==> s[k] in cs
    requires Bare(s[i..j], cs)
    ensures StripChars(s, cs) == s[i..j]
  {
    var r := StripChars(s, cs);
    StripCharsIsInfix(s, cs);
    var i' :| StrippedAt(s, cs, i', r);
    if i < j {
      assert s[i] !in cs && s[j - 1] !in cs;
      assert i' <= i;
      assert i' + |r| >= j;
      assert |r| > 0 ==> r[0] == s[i'] && r[|r| - 1] == s[i' + |r| - 1];
      assert i' == i;
      assert i' + |r| == j;
    } else {
      assert forall k :: 0 <= k < |s| ==> s[k] in cs;
      assert |r| == 0;
    }
  }

  /** Stripping twice removes nothing more. */
  lemma StripCharsIdempotent(s: string, cs: set<char>)
    ensures StripChars(StripChars(s, cs), cs) == StripChars(s, cs)
  {
    var r := StripChars(s, cs);
    StripCharsUnique(r, cs, 0, |r|);
  }

  /** A string whose ends are not whitespace is left alone by strip(). */
  lemma StripBare(s: string)
    requires Bare(s, Whitespace)
    ensures Strip(s) == s
  {
    StripCharsUnique(s, Whitespace, 0, |s|);
  }

  /** A string that is bare after one leading whitespace character loses
      exactly that character to strip(). */
  lemma StripLeadingSpace(s: string)
    requires |s| > 1 && s[0] in Whitespace && Bare(s[1..], Whitespace)
    ensures Strip(s) == s[1..]
  {
    StripCharsUnique(s, Whitespace, 1, |s|);
  }

  /** Trimming two pieces, joining them with a non-whitespace separator
      and trimming again keeps a bare first piece and drops the one leading
      whitespace character of the second. */
  lemma StripAroundSeparator(a: string, sep: char, b: string)
    requires sep !in Whitespace && Bare(a, Whitespace)
    requires |b| > 1 && b[0] in Whitespace && Bare(b[1..], Whitespace)
    ensures Strip(Strip(a) + [sep] + Strip(b)) == a + [sep] + b[1..]
  {
    StripBare(a);
    StripLeadingSpace(b);
    var joined := a + [sep] + b[1..];
    assert Bare(joined, Whitespace) by {
      assert joined[|joined| - 1] == b[1..][|b| - 2];
      if |a| > 0 {
        assert joined[0] == a[0];
      } else {
        assert joined[0] == sep;
      }
    }
    StripBare(joined);
  }

  /** Every result of strip() is bare, so strip() is idempotent. */
  lemma StripIsBare(s: string)
    ensures Bare(Strip(s), Whitespace) && Strip(Strip(s)) == Strip(s)
  {
    StripCharsIdempotent(s, Whitespace);
  }

  /** str.lower() on one character; only the ASCII letters are mapped. */
  function LowerChar(c: char): char {
    if 'A' <= c <= 'Z' then (c as int + 32) as char else c
  }

  /** str.lower() restricted to ASCII case mapping. */
  function Lower(s: string): (r: string)
    ensures |r| == |s|
  {
    seq(|s|, i requires 0 <= i < |s| => LowerChar(s[i]))
  }

  /** s holds no ASCII capital letter. */
  predicate NoCapitals(s: string) {
    forall i :: 0 <= i < |s| ==> !('A' <= s[i] <= 'Z')
  }

  /** Lowering leaves no ASCII capital and is idempotent. */
  lemma LowerIsLower(s: string)
    ensures NoCapitals(Lower(s))
    ensures Lower(Lower(s)) == Lower(s)
  {
  }

  /** Lowering maps no character to or from whitespace, so a string with
      no surrounding whitespace keeps none. */
  lemma LowerKeepsBare(s: string)
    requires Bare(s, Whitespace)
    ensures Bare(Lower(s), Whitespace)
  {
  }

  /** sep.join(parts) */
  function Join(parts: seq<string>, sep: char): string
    decreases |parts|
  {
    if |parts| == 0 then ""
    else if |parts| == 1 then parts[0]
    else parts[0] + [sep] + Join(parts[1..], sep)
  }

  /** s.split(sep): one piece more than there are separators, no piece holds
      the separator, and joining the pieces gives s back. */
  function Split(s: string, sep: char): (parts: seq<string>)
    ensures forall p :: p in parts ==> sep !in p
    ensures Join(parts, sep) == s
    decreases |s|
  {
    if |s| == 0 then [""]
    else
      var rest := Split(s[1..], sep);
      assert s == [s[0]] + s[1..];
      if s[0] == sep then
        assert Join([""] + rest, sep) == [sep] + Join(rest, sep);
        [""] + rest
      else
        var parts := [[s[0]] + rest[0]] + rest[1..];
        assert |rest| > 1 ==> Join(rest, sep) == rest[0] + [sep] + Join(rest[1..], sep);
        assert parts[1..] == rest[1..];
        parts
  }

  /** Joining pieces whose ends are not in cs, with a separator not in cs,
      gives a string whose ends are not in cs. */
  lemma {:induction false} JoinBare(parts: seq<string>, sep: char, cs: set<char>)
    requires sep !in cs
    requires forall p :: p in parts ==> Bare(p, cs)
    ensures Bare(Join(parts, sep), cs)
    decreases |parts|
  {
    if |parts| > 1 {
      JoinBare(parts[1..], sep, cs);
      var tail := Join(parts[1..], sep);
      assert Join(parts, sep) == parts[0] + [sep] + tail;
      assert parts[0] in parts;
    } else if |parts| == 1 {
      assert parts[0] in parts;
    }
  }

  /** s.split(sep) yields one piece more than s holds separators. */
  lemma {:induction false} SplitCount(s: string, sep: char)
    ensures |Split(s, sep)| == multiset(s)[sep] + 1
    decreases |s|
  {
    if |s| > 0 {
      SplitCount(s[1..], sep);
      assert s == [s[0]] + s[1..];
      if s[0] == sep {
        SplitAtSeparator(s, sep);
      } else {
        SplitAtOther(s, sep);
      }
    }
  }

  /** A separator after a separator-free prefix ends the first piece. */
  lemma {:induction false} SplitAfterPrefix(a: string, b: string, sep: char)
    requires sep !in a
    ensures Split(a + [sep] + b, sep) == [a] + Split(b, sep)
    decreases |a|
  {
    var t := a + [sep] + b;
    if |a| > 0 {
      SplitAtOther(t, sep);
      assert t[1..] == a[1..] + [sep] + b;
      SplitAfterPrefix(a[1..], b, sep);
      assert [t[0]] + a[1..] == a;
    } else {
      assert t == [sep] + b;
      SplitAtSeparator(t, sep);
    }
  }

  /** A leading separator ends an empty first piece. */
  lemma SplitAtSeparator(s: string, sep: char)
    requires |s| > 0 && s[0] == sep
    ensures Split(s, sep) == [""] + Split(s[1..], sep)
  {
  }

  /** Any other leading character starts the first piece. */
  lemma SplitAtOther(s: string, sep: char)
    requires |s| > 0 && s[0] != sep
    ensures Split(s, sep) == [[s[0]] + Split(s[1..], sep)[0]] + Split(s[1..], sep)[1..]
  {
  }

  /** Splitting undoes joining when no piece holds the separator. */
  lemma {:induction false} SplitJoin(parts: seq<string>, sep: char)
    requires |parts| > 0
    requires forall p :: p in parts ==> sep !in p
    ensures Split(Join(parts, sep), sep) == parts
    decreases |parts|
  {
    if |parts| == 1 {
      SplitNoSeparator(parts[0], sep);
    } else {
      assert parts[1..][0] == parts[1];
      SplitJoin(parts[1..], sep);
      SplitAfterPrefix(parts[0], Join(parts[1..], sep), sep);
    }
  }

  /** A string with exactly one separator splits into the two sides. */
  lemma SplitOnce(a: string, sep: char, b: string)
    requires sep !in a && sep !in b
    ensures Split(a + [sep] + b, sep) == [a, b]
  {
    SplitAfterPrefix(a, b, sep);
    SplitNoSeparator(b, sep);
    assert Split(a + [sep] + b, sep) == [a] + [b];
  }

  /** A string without the separator splits into itself. */
  lemma {:induction false} SplitNoSeparator(s: string, sep: char)
    requires sep !in s
    ensures Split(s, sep) == [s]
  {
    var parts := Split(s, sep);
    assert multiset(s)[sep] == 0;
    assert Join(parts, sep) == parts[0];
  }

  /** str.endswith(suffix) */
  predicate EndsWith(s: string, suffix: string) {
    |suffix| <= |s| && s[|s| - |suffix|..] == suffix
  }

  /** The first index at which x occurs in xs, or None when it does not. */
  function IndexOf(xs: seq<string>, x: string): (r: Option<nat>)
    ensures r.None? <==> x !in xs
    ensures r.Some? ==> r.value < |xs| && xs[r.value] == x && x !in xs[..r.value]
    decreases |xs|
  {
    if |xs| == 0 then None
    else if xs[0] == x then Some(0)
    else
      match IndexOf(xs[1..], x)
      case None => None
      case Some(i) =>
        assert xs[..i + 1] == [xs[0]] + xs[1..][..i];
        Some(i + 1)
  }

  /** pat occurs somewhere in s (Python's `pat in s`). */
  predicate Occurs(pat: string, s: string)
    decreases |s|
  {
    |pat| <= |s| && (s[..|pat|] == pat || (|s| > 0 && Occurs(pat, s[1..])))
  }

  /** s.replace(pat, ""): every non-overlapping occurrence of pat, found left
      to right, removed. */
  function RemoveAll(s: string, pat: string): (r: string)
    ensures |r| <= |s|
    ensures !Occurs(pat, s) ==> r == s
    decreases |s|
  {
    if |pat| == 0 || |s| < |pat| then s
    else if s[..|pat|] == pat then RemoveAll(s[|pat|..], pat)
    else [s[0]] + RemoveAll(s[1..], pat)
  }

  /** A prefix without pat survives s.replace(pat, ""), and the pat after
      it is removed, when pat's first character occurs in it only there
      (so no occurrence can start inside the prefix and end past it). */
  lemma {:induction false} RemoveAfterPlain(a: string, pat: string, rest: string)
    requires |pat| > 0 && pat[0] !in pat[1..]
    requires !Occurs(pat, a)
    ensures RemoveAll(a + pat + rest, pat) == a + RemoveAll(rest, pat)
    decreases |a|
  {
    if |a| == 0 {
      RemoveAllAtMatch(pat, rest);
      assert a + pat + rest == pat + rest;
    } else {
      var s := a + pat + rest;
      NoMatchBeforePat(a, pat, rest);
      calc {
        RemoveAll(s, pat);
        == { RemoveAllAtMismatch(s, pat); }
        [s[0]] + RemoveAll(s[1..], pat);
        == { assert s[0] == a[0] && s[1..] == a[1..] + pat + rest; }
        [a[0]] + RemoveAll(a[1..] + pat + rest, pat);
        == { RemoveAfterPlain(a[1..], pat, rest); }
        [a[0]] + (a[1..] + RemoveAll(rest, pat));
        == { assert [a[0]] + a[1..] == a; }
        a + RemoveAll(rest, pat);
      }
    }
  }

  /** A leading pat is removed. */
  lemma RemoveAllAtMatch(pat: string, rest: string)
    requires |pat| > 0
    ensures RemoveAll(pat + rest, pat) == RemoveAll(rest, pat)
  {
    var s := pat + rest;
    assert s[..|pat|] == pat;
    assert s[|pat|..] == rest;
  }

  /** A string that does not start with pat keeps its first character. */
  lemma RemoveAllAtMismatch(s: string, pat: string)
    requires |pat| > 0 && |s| >= |pat| && s[..|pat|] != pat
    ensures RemoveAll(s, pat) == [s[0]] + RemoveAll(s[1..], pat)
  {
  }

  /** A non-empty prefix without pat, followed by pat, does not start with
      pat, and its tail holds no pat either. */
  lemma NoMatchBeforePat(a: string, pat: string, rest: string)
    requires |pat| > 0 && pat[0] !in pat[1..]
    requires |a| > 0 && !Occurs(pat, a)
    ensures (a + pat + rest)[..|pat|] != pat
    ensures !Occurs(pat, a[1..])
  {
    var s := a + pat + rest;
    if |a| >= |pat| {
      assert s[..|pat|] == a[..|pat|];
    } else {
      assert s[|a|] == pat[0];
      assert pat[|a|] == pat[1..][|a| - 1];
    }
  }
}
