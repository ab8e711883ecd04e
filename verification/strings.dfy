/** The handful of Python `str` operations the generator relies on:
    `startswith`, `endswith`, `in`, `strip`, `split`, `lower` and `replace`. */
module Strings {

  /** Python `s.startswith(p)`. */
  predicate StartsWith(s: string, p: string) {
    |p| <= |s| && s[..|p|] == p
  }

  /** Python `s.endswith(p)`. */
  predicate EndsWith(s: string, p: string) {
    |p| <= |s| && s[|s| - |p|..] == p
  }

  /** Python `sub in s`, computed by trying every start position in turn. */
  predicate Contains(s: string, sub: string)
    decreases |s|
  {
    StartsWith(s, sub) || (|s| > 0 && Contains(s[1..], sub))
  }

  /** `sub` is the window of `s` that starts at `i`. */
  ghost predicate OccursAt(s: string, sub: string, i: int) {
    0 <= i && i + |sub| <= |s| && s[i..i + |sub|] == sub
  }

  /** The scanning definition of `Contains` agrees with the textbook one:
      some window of `s` equals `sub`. */
  lemma {:induction false} ContainsIsSubstring(s: string, sub: string)
    ensures Contains(s, sub) <==> exists i :: OccursAt(s, sub, i)
    decreases |s|
  {
    if StartsWith(s, sub) {
      assert OccursAt(s, sub, 0);
    } else if |s| == 0 {
      assert forall i :: !OccursAt(s, sub, i);
    } else {
      ContainsIsSubstring(s[1..], sub);
      if Contains(s[1..], sub) {
        var i :| OccursAt(s[1..], sub, i);
        assert s[i + 1..i + 1 + |sub|] == s[1..][i..i + |sub|];
        assert OccursAt(s, sub, i + 1);
      } else {
        forall i | OccursAt(s, sub, i)
          ensures false
        {
          assert i != 0;
          assert s[1..][i - 1..i - 1 + |sub|] == s[i..i + |sub|];
          assert OccursAt(s[1..], sub, i - 1);
        }
      }
    }
  }

  /** The empty string is contained in every string, as in Python. */
  lemma {:induction false} EmptyIsContained(s: string)
    ensures Contains(s, "")
  {
  }

  /** Python `s.lstrip(c)` for a single character `c`. */
  function LStrip(s: string, c: char): (r: string)
    ensures |r| <= |s| && r == s[|s| - |r|..]
    ensures |r| > 0 ==> r[0] != c
    ensures forall k :: 0 <= k < |s| - |r| ==> s[k] == c
    decreases |s|
  {
    if |s| > 0 && s[0] == c then LStrip(s[1..], c) else s
  }

  /** Python `s.rstrip(c)` for a single character `c`. */
  function RStrip(s: string, c: char): (r: string)
    ensures |r| <= |s| && r == s[..|r|]
    ensures |r| > 0 ==> r[|r| - 1] != c
    ensures forall k :: |r| <= k < |s| ==> s[k] == c
    decreases |s|
  {
    if |s| > 0 && s[|s| - 1] == c then RStrip(s[..|s| - 1], c) else s
  }

  /** Python `s.strip(c)` for a single character `c`: every leading and
      every trailing `c` is removed, nothing else is. */
  function Strip(s: string, c: char): (r: string)
    ensures |r| > 0 ==> r[0] != c && r[|r| - 1] != c
    ensures exists i, j :: StrippedAt(s, c, r, i, j)
    ensures c !in s ==> r == s
  {
    StripsEnds(s, c);
    RStrip(LStrip(s, c), c)
  }

  /** `r` is `s[i..j]` and every character outside that window is `c`. */
  predicate StrippedAt(s: string, c: char, r: string, i: int, j: int) {
    && 0 <= i <= j <= |s| && r == s[i..j]
    && (forall k :: 0 <= k < i ==> s[k] == c)
    && (forall k :: j <= k < |s| ==> s[k] == c)
  }

  /** Where `LStrip` and `RStrip` cut `s`. */
  lemma {:induction false} StripsEnds(s: string, c: char)
    ensures StrippedAt(s, c, RStrip(LStrip(s, c), c), |s| - |LStrip(s, c)|, |s| - |LStrip(s, c)| + |RStrip(LStrip(s, c), c)|)
  {
    var l := LStrip(s, c);
    var r := RStrip(l, c);
    WindowOfSuffix(s, c, l, r);
    assert StrippedAt(s, c, r, |s| - |l|, |s| - |l| + |r|);
  }

  /** A window cut from the front of a suffix: the ends `LStrip` and `RStrip`
      leave hold only `c`. */
  lemma {:induction false} WindowOfSuffix(s: string, c: char, l: string, r: string)
    requires |l| <= |s| && l == s[|s| - |l|..]
    requires forall k :: 0 <= k < |s| - |l| ==> s[k] == c
    requires |r| <= |l| && r == l[..|r|]
    requires forall k :: |r| <= k < |l| ==> l[k] == c
    ensures StrippedAt(s, c, r, |s| - |l|, |s| - |l| + |r|)
  {
    var i := |s| - |l|;
    assert forall k :: i <= k < |s| ==> s[k] == l[k - i];
  }

  /** What `Strip` keeps is a window of its input. */
  lemma {:induction false} StripIsWindow(s: string, c: char)
    ensures exists i :: OccursAt(s, Strip(s, c), i)
  {
    var l := LStrip(s, c);
    assert OccursAt(s, Strip(s, c), |s| - |l|);
  }

  /** Stripping twice is stripping once. */
  lemma {:induction false} StripIdempotent(s: string, c: char)
    ensures Strip(Strip(s, c), c) == Strip(s, c)
  {
    var r := Strip(s, c);
    if |r| > 0 {
      assert LStrip(r, c) == r;
      assert RStrip(r, c) == r;
    }
  }

  /** One more leading `c` does not change what `Strip` keeps. */
  lemma {:induction false} StripLeading(s: string, c: char)
    ensures Strip([c] + s, c) == Strip(s, c)
  {
    assert ([c] + s)[1..] == s;
  }

  /** A string that neither starts nor ends with `c` is left alone by
      `Strip`, and so is one extra leading or trailing `c` removed. */
  lemma {:induction false} StripBare(s: string, c: char)
    requires |s| > 0 && s[0] != c && s[|s| - 1] != c
    ensures Strip(s, c) == s
    ensures Strip([c] + s, c) == s
    ensures Strip(s + [c], c) == s
  {
    assert ([c] + s)[1..] == s;
    StripBareTrailing(s, c);
  }

  /** One trailing `c` after a bare string is stripped off. */
  lemma {:induction false} StripBareTrailing(s: string, c: char)
    requires |s| > 0 && s[0] != c && s[|s| - 1] != c
    ensures Strip(s + [c], c) == s
  {
    var t := s + [c];
    assert t[0] == s[0] && t[|t| - 1] == c;
    assert LStrip(t, c) == t;
    assert t[..|t| - 1] == s;
    assert RStrip(s, c) == s;
  }

  /** The first position of `c` in `s`. */
  function FirstIndex<T(==)>(s: seq<T>, c: T): (k: nat)
    requires c in s
    ensures k < |s| && s[k] == c && c !in s[..k]
  {
    if s[0] == c then 0
    else
      assert s == [s[0]] + s[1..];
      var k := FirstIndex(s[1..], c);
      assert s[..k + 1] == [s[0]] + s[1..][..k];
      k + 1
  }

  /** Python `sep.join(parts)` for a one-character separator. */
  function Join(parts: seq<string>, sep: char): string
    requires |parts| > 0
  {
    if |parts| == 1 then parts[0] else parts[0] + [sep] + Join(parts[1..], sep)
  }

  /** Python `s.split(sep)` for a one-character separator: there is always at
      least one part, no part holds the separator, and there is one part more
      than there are separators. */
  function Split(s: string, sep: char): (parts: seq<string>)
    ensures |parts| == multiset(s)[sep] + 1
    ensures forall k :: 0 <= k < |parts| ==> sep !in parts[k]
    decreases |s|
  {
    if sep !in s then
      assert multiset(s)[sep] == 0;
      [s]
    else
      var k := FirstIndex(s, sep);
      assert s == s[..k] + [sep] + s[k + 1..];
      assert multiset(s) == multiset(s[..k]) + multiset{sep} + multiset(s[k + 1..]);
      assert multiset(s[..k])[sep] == 0;
      [s[..k]] + Split(s[k + 1..], sep)
  }

  /** Joining one more part appends the separator and that part. */
  lemma {:induction false} JoinSnoc(parts: seq<string>, last: string, sep: char)
    requires |parts| > 0
    ensures Join(parts + [last], sep) == Join(parts, sep) + [sep] + last
    decreases |parts|
  {
    var ps := parts + [last];
    assert ps[0] == parts[0];
    if |parts| > 1 {
      assert ps[1..] == parts[1..] + [last];
      JoinSnoc(parts[1..], last, sep);
    } else {
      assert ps[1..] == [last];
    }
  }

  /** A join of non-empty parts starts with the first part's first character
      and ends with the last part's last character. */
  lemma {:induction false} JoinEnds(parts: seq<string>, sep: char)
    requires |parts| > 0
    requires forall k :: 0 <= k < |parts| ==> |parts[k]| > 0
    ensures |Join(parts, sep)| > 0
    ensures Join(parts, sep)[0] == parts[0][0]
    ensures Join(parts, sep)[|Join(parts, sep)| - 1] == parts[|parts| - 1][|parts[|parts| - 1]| - 1]
    decreases |parts|
  {
    if |parts| > 1 {
      JoinEnds(parts[1..], sep);
    }
  }

  /** Joining the parts of a split gives back the string. */
  lemma {:induction false} JoinSplit(s: string, sep: char)
    ensures Join(Split(s, sep), sep) == s
    decreases |s|
  {
    if sep in s {
      var k := FirstIndex(s, sep);
      var rest := Split(s[k + 1..], sep);
      assert Split(s, sep) == [s[..k]] + rest;
      assert Split(s, sep)[1..] == rest;
      JoinSplit(s[k + 1..], sep);
      assert Join(Split(s, sep), sep) == s[..k] + [sep] + Join(rest, sep);
      assert s == s[..k] + [sep] + s[k + 1..];
    }
  }

  /** A position holding `c` with no `c` before it is the first index. */
  lemma {:induction false} FirstIndexAt<T>(s: seq<T>, c: T, i: nat)
    requires i < |s| && s[i] == c && c !in s[..i]
    ensures FirstIndex(s, c) == i
    decreases i
  {
    if i > 0 {
      assert s[..i] == [s[0]] + s[1..][..i - 1];
      FirstIndexAt(s[1..], c, i - 1);
    }
  }

  /** Splitting at the first separator: a separator-free head is the first
      part. */
  lemma {:induction false} SplitCons(a: string, b: string, sep: char)
    requires sep !in a
    ensures Split(a + [sep] + b, sep) == [a] + Split(b, sep)
  {
    var s := a + [sep] + b;
    assert s[..|a|] == a;
    FirstIndexAt(s, sep, |a|);
    assert s[|a| + 1..] == b;
  }

  /** Splitting a join of separator-free parts gives back the parts. */
  lemma {:induction false} SplitJoin(parts: seq<string>, sep: char)
    requires |parts| > 0
    requires forall k :: 0 <= k < |parts| ==> sep !in parts[k]
    ensures Split(Join(parts, sep), sep) == parts
    decreases |parts|
  {
    if |parts| > 1 {
      SplitJoin(parts[1..], sep);
      SplitJoinStep(parts, sep);
    } else {
      assert Join(parts, sep) == parts[0];
    }
  }

  /** One step of SplitJoin: a separator-free head in front of a tail that
      splits back correctly. */
  lemma {:induction false} SplitJoinStep(parts: seq<string>, sep: char)
    requires |parts| > 1 && sep !in parts[0]
    requires Split(Join(parts[1..], sep), sep) == parts[1..]
    ensures Split(Join(parts, sep), sep) == parts
  {
    var rest := Join(parts[1..], sep);
    assert Join(parts, sep) == parts[0] + [sep] + rest;
    SplitCons(parts[0], rest, sep);
    assert parts == [parts[0]] + parts[1..];
  }

  predicate IsWordChar(ch: char) {
    ('a' <= ch <= 'z') || ('A' <= ch <= 'Z') || ('0' <= ch <= '9') || ch == '_'
  }

  /** Python `ch.lower()` on ASCII letters; every other character is kept. */
  function LowerChar(ch: char): char {
    if 'A' <= ch <= 'Z' then (ch as int - 'A' as int + 'a' as int) as char else ch
  }

  /** Python `s.lower()` restricted to ASCII letters. */
  function Lower(s: string): (r: string)
    ensures |r| == |s|
  {
    seq(|s|, k requires 0 <= k < |s| => LowerChar(s[k]))
  }

  /** Python `s.replace(a, b)` for one-character `a` and `b`. */
  function ReplaceChar(s: string, a: char, b: char): (r: string)
    ensures |r| == |s|
  {
    seq(|s|, k requires 0 <= k < |s| => if s[k] == a then b else s[k])
  }
}
