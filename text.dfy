/**
  The operations of .NET's `System.String` that the contact store relies on,
  restated over `seq<char>`: `Contains`, `Replace`, `Split`, `String.Join`,
  `Trim`, `Substring`, `ToUpper` and `ToLower`. Case mapping covers the ASCII
  letters only, and white space is the ASCII white space (tab to carriage
  return, and the space).
 */
module Text {
  import opened Wrappers

  predicate IsWhiteSpace(c: char) {
    c == ' ' || '\t' <= c <= '\r'
  }

  // ---------------------------------------------------------------------------
  // Contains
  // ---------------------------------------------------------------------------

  /** `s.Contains(pat)`: `pat` occurs in `s` at some position. */
  predicate Contains(s: string, pat: string)
    decreases |s|
  {
    pat <= s || (s != [] && Contains(s[1..], pat))
  }

  /** An occurrence at an explicit position is an occurrence. */
  lemma {:induction false} ContainsAt(s: string, pat: string, i: nat)
    requires i + |pat| <= |s| && s[i..i + |pat|] == pat
    ensures Contains(s, pat)
    decreases i
  {
    if i == 0 {
      assert pat <= s;
    } else {
      assert s[1..][i - 1..i - 1 + |pat|] == s[i..i + |pat|];
      ContainsAt(s[1..], pat, i - 1);
    }
  }

  /** Every occurrence sits at some position. */
  lemma {:induction false} ContainsPosition(s: string, pat: string) returns (i: nat)
    requires Contains(s, pat)
    ensures i + |pat| <= |s| && s[i..i + |pat|] == pat
    decreases |s|
  {
    if pat <= s {
      i := 0;
    } else {
      var j := ContainsPosition(s[1..], pat);
      assert s[1..][j..j + |pat|] == s[j + 1..j + 1 + |pat|];
      i := j + 1;
    }
  }

  /** Whatever contains `a + b` contains `a`: a pattern's prefix is found wherever the pattern is. */
  lemma ContainsPrefixOfPattern(s: string, a: string, b: string)
    requires Contains(s, a + b)
    ensures Contains(s, a)
  {
    var i := ContainsPosition(s, a + b);
    assert s[i..i + |a|] == (a + b)[..|a|];
    ContainsAt(s, a, i);
  }

  /** An occurrence inside a part is an occurrence inside the whole. */
  lemma ContainsInside(a: string, s: string, b: string, pat: string)
    requires Contains(s, pat)
    ensures Contains(a + s + b, pat)
  {
    var i := ContainsPosition(s, pat);
    assert (a + s + b)[|a| + i..|a| + i + |pat|] == s[i..i + |pat|];
    ContainsAt(a + s + b, pat, |a| + i);
  }

  /** A string lacking some character of the pattern cannot contain the pattern. */
  lemma {:induction false} NotContainsWithout(s: string, pat: string, ch: char)
    requires ch in pat && ch !in s
    ensures !Contains(s, pat)
    decreases |s|
  {
    if s != [] {
      assert ch !in s[1..] by { assert forall x :: x in s[1..] ==> x in s; }
      NotContainsWithout(s[1..], pat, ch);
    }
  }

  /** An occurrence inside one of the joined pieces is an occurrence in the joined string. */
  lemma {:induction false} ContainsInJoin(parts: seq<string>, k: nat, sep: string, pat: string)
    requires k < |parts| && Contains(parts[k], pat)
    ensures Contains(Join(parts, sep), pat)
    decreases |parts|
  {
    if |parts| == 1 {
    } else if k == 0 {
      ContainsInside("", parts[0], sep + Join(parts[1..], sep), pat);
      assert "" + parts[0] + (sep + Join(parts[1..], sep)) == Join(parts, sep);
    } else {
      ContainsInJoin(parts[1..], k - 1, sep, pat);
      ContainsInside(parts[0] + sep, Join(parts[1..], sep), "", pat);
      assert parts[0] + sep + Join(parts[1..], sep) + "" == Join(parts, sep);
    }
  }

  /** An occurrence of a pattern that lacks `x` lies on one side of an `x`. */
  lemma ContainsAcross(a: string, x: char, b: string, pat: string)
    requires Contains(a + [x] + b, pat) && x !in pat
    ensures Contains(a, pat) || Contains(b, pat)
  {
    var s := a + [x] + b;
    var i := ContainsPosition(s, pat);
    assert s[|a|] == x;
    assert forall m :: i <= m < i + |pat| ==> s[m] == pat[m - i];
    if i + |pat| <= |a| {
      assert s[i..i + |pat|] == a[i..i + |pat|];
      ContainsAt(a, pat, i);
    } else if i > |a| {
      assert s[i..i + |pat|] == b[i - |a| - 1..i - |a| - 1 + |pat|];
      ContainsAt(b, pat, i - |a| - 1);
    }
  }

  /** A non-empty pattern without the separator that occurs in the joined
      string occurs in one of the pieces. */
  lemma {:induction false} ContainsInJoinedPart(parts: seq<string>, sep: char, pat: string) returns (k: nat)
    requires |pat| > 0 && sep !in pat && Contains(Join(parts, [sep]), pat)
    ensures k < |parts| && Contains(parts[k], pat)
    decreases |parts|
  {
    if |parts| == 1 {
      k := 0;
    } else {
      assert Join(parts, [sep]) == parts[0] + [sep] + Join(parts[1..], [sep]);
      ContainsAcross(parts[0], sep, Join(parts[1..], [sep]), pat);
      if Contains(parts[0], pat) {
        k := 0;
      } else {
        var j := ContainsInJoinedPart(parts[1..], sep, pat);
        k := j + 1;
      }
    }
  }

  /** The character at position `q` of the pattern has to occur at position
      `q` or later in the string. */
  lemma NotContainsLate(s: string, pat: string, q: nat, ch: char)
    requires q < |pat| && pat[q] == ch
    requires forall m :: q <= m < |s| ==> s[m] != ch
    ensures !Contains(s, pat)
  {
    if Contains(s, pat) {
      var i := ContainsPosition(s, pat);
    }
  }

  /** The pattern has `c1` at `q` and `c2` at `q + d`; a string in which no
      `c1` at or after `q` is followed `d` places later by `c2` lacks it. */
  lemma NotContainsPair(s: string, pat: string, q: nat, c1: char, d: nat, c2: char)
    requires q + d < |pat| && pat[q] == c1 && pat[q + d] == c2
    requires forall m :: q <= m && m + d < |s| && s[m] == c1 ==> s[m + d] != c2
    ensures !Contains(s, pat)
  {
    if Contains(s, pat) {
      var i := ContainsPosition(s, pat);
    }
  }

  // ---------------------------------------------------------------------------
  // Replace
  // ---------------------------------------------------------------------------

  /** `s.Replace(pat, rep)`: every occurrence of `pat`, found left to right
      without overlap, is replaced by `rep`. */
  function ReplaceAll(s: string, pat: string, rep: string): string
    requires |pat| > 0
    decreases |s|
  {
    if s == [] then []
    else if pat <= s then rep + ReplaceAll(s[|pat|..], pat, rep)
    else [s[0]] + ReplaceAll(s[1..], pat, rep)
  }

  /** Replacing a pattern that does not occur changes nothing. */
  lemma {:induction false} ReplaceAllAbsent(s: string, pat: string, rep: string)
    requires |pat| > 0 && !Contains(s, pat)
    ensures ReplaceAll(s, pat, rep) == s
    decreases |s|
  {
    if s != [] {
      ReplaceAllAbsent(s[1..], pat, rep);
      assert [s[0]] + s[1..] == s;
    }
  }

  /** A label followed by a value in which the label does not occur: the label
      is removed and the value is kept; the leading character `c` is kept when
      the label does not start with it. */
  lemma StripLabel(c: char, tag: string, value: string)
    requires |tag| > 0 && tag[0] != c && !Contains(value, tag)
    ensures ReplaceAll([c] + tag + value, tag, "") == [c] + value
    ensures ReplaceAll(tag + value, tag, "") == value
  {
    var s := [c] + tag + value;
    assert !(tag <= s) by { assert s[0] == c; }
    assert s[1..] == tag + value;
    StripTag(tag, value);
    assert ReplaceAll(s, tag, "") == [c] + ReplaceAll(tag + value, tag, "");
  }

  lemma StripTag(tag: string, value: string)
    requires |tag| > 0 && !Contains(value, tag)
    ensures ReplaceAll(tag + value, tag, "") == value
  {
    assert tag <= tag + value;
    assert (tag + value)[|tag|..] == value;
    ReplaceAllAbsent(value, tag, "");
  }

  // ---------------------------------------------------------------------------
  // Split and Join
  // ---------------------------------------------------------------------------

  /** `s.Split(sep)`: the pieces between separators, empty pieces included,
      so there is always one piece more than there are separators. */
  function Split(s: string, sep: char): (r: seq<string>)
    ensures |r| == Count(s, sep) + 1
    ensures forall k :: 0 <= k < |r| ==> sep !in r[k]
    decreases |s|
  {
    if s == [] then [""]
    else if s[0] == sep then [""] + Split(s[1..], sep)
    else
      var rest := Split(s[1..], sep);
      [[s[0]] + rest[0]] + rest[1..]
  }

  /** The number of occurrences of `c` in `s`. */
  function Count(s: string, c: char): nat
    decreases |s|
  {
    if s == [] then 0 else (if s[0] == c then 1 else 0) + Count(s[1..], c)
  }

  /** `String.Join(sep, parts)`. */
  function Join(parts: seq<string>, sep: string): string
    decreases |parts|
  {
    if parts == [] then ""
    else if |parts| == 1 then parts[0]
    else parts[0] + sep + Join(parts[1..], sep)
  }

  lemma {:induction false} SplitWithoutSeparator(a: string, sep: char)
    requires sep !in a
    ensures Split(a, sep) == [a]
    decreases |a|
  {
    if a != [] {
      assert a[0] in a;
      assert sep !in a[1..] by { assert forall x :: x in a[1..] ==> x in a; }
      SplitWithoutSeparator(a[1..], sep);
      assert [a[0]] + a[1..] == a;
    }
  }

  lemma {:induction false} SplitAfterPiece(a: string, sep: char, rest: string)
    requires sep !in a
    ensures Split(a + [sep] + rest, sep) == [a] + Split(rest, sep)
    decreases |a|
  {
    var s := a + [sep] + rest;
    if a == [] {
      assert s[1..] == rest;
    } else {
      assert a[0] in a;
      assert sep !in a[1..] by { assert forall x :: x in a[1..] ==> x in a; }
      assert s[1..] == a[1..] + [sep] + rest;
      SplitAfterPiece(a[1..], sep, rest);
      assert [a[0]] + a[1..] == a;
    }
  }

  /** Splitting undoes joining, for pieces free of the separator. */
  lemma {:induction false} SplitJoin(parts: seq<string>, sep: char)
    requires |parts| >= 1
    requires forall k :: 0 <= k < |parts| ==> sep !in parts[k]
    ensures Split(Join(parts, [sep]), sep) == parts
    decreases |parts|
  {
    if |parts| == 1 {
      SplitWithoutSeparator(parts[0], sep);
    } else {
      SplitJoin(parts[1..], sep);
      SplitAfterPiece(parts[0], sep, Join(parts[1..], [sep]));
      assert [parts[0]] + parts[1..] == parts;
    }
  }

  lemma {:induction false} JoinHead(x: string, parts: seq<string>, sep: string)
    requires |parts| >= 1
    ensures Join([x + parts[0]] + parts[1..], sep) == x + Join(parts, sep)
  {
    var q := [x + parts[0]] + parts[1..];
    if |parts| > 1 {
      assert q[1..] == parts[1..];
    }
  }

  /** Joining undoes splitting: no character of the line is lost. */
  lemma {:induction false} JoinSplit(s: string, sep: char)
    ensures Join(Split(s, sep), [sep]) == s
    decreases |s|
  {
    if s != [] {
      JoinSplit(s[1..], sep);
      var rest := Split(s[1..], sep);
      if s[0] == sep {
        assert ([""] + rest)[1..] == rest;
        assert s == [sep] + s[1..];
      } else {
        JoinHead([s[0]], rest, [sep]);
        assert s == [s[0]] + s[1..];
      }
    }
  }

  /** Joining with `" |"` is joining with `"|"` after a space is added to every piece but the last. */
  lemma {:induction false} JoinSpaced(parts: seq<string>)
    requires |parts| >= 1
    ensures Join(parts, " |") == Join(PadAllButLast(parts), "|")
    decreases |parts|
  {
    if |parts| > 1 {
      JoinSpaced(parts[1..]);
      assert PadAllButLast(parts)[1..] == PadAllButLast(parts[1..]);
    }
  }

  /** Splitting pieces joined with `" |"` gives them back, each but the last with a trailing space. */
  lemma SplitJoinSpaced(parts: seq<string>)
    requires |parts| >= 1
    requires forall k :: 0 <= k < |parts| ==> '|' !in parts[k]
    ensures Split(Join(parts, " |"), '|') == PadAllButLast(parts)
  {
    JoinSpaced(parts);
    var padded := PadAllButLast(parts);
    forall k | 0 <= k < |padded| ensures '|' !in padded[k] {
      if k < |padded| - 1 {
        assert padded[k] == parts[k] + " ";
      }
    }
    SplitJoin(padded, '|');
  }

  /** Every piece but the last with a space appended. */
  function PadAllButLast(parts: seq<string>): (r: seq<string>)
    requires |parts| >= 1
    ensures |r| == |parts|
    ensures forall k :: 0 <= k < |parts| - 1 ==> r[k] == parts[k] + " "
    ensures r[|parts| - 1] == parts[|parts| - 1]
  {
    seq(|parts|, k requires 0 <= k < |parts| => if k < |parts| - 1 then parts[k] + " " else parts[k])
  }

  // ---------------------------------------------------------------------------
  // Trim
  // ---------------------------------------------------------------------------

  /** A non-empty string with no white space at either end. */
  predicate Tight(s: string) {
    |s| > 0 && !IsWhiteSpace(s[0]) && !IsWhiteSpace(s[|s| - 1])
  }

  predicate AllWhiteSpace(s: string) {
    forall k :: 0 <= k < |s| ==> IsWhiteSpace(s[k])
  }

  function TrimStart(s: string): (r: string)
    ensures |r| <= |s| && r == s[|s| - |r|..]
    ensures r == [] || !IsWhiteSpace(r[0])
    decreases |s|
  {
    if s != [] && IsWhiteSpace(s[0]) then TrimStart(s[1..]) else s
  }

  /** What `TrimStart` drops is white space. */
  lemma {:induction false} TrimStartDrops(s: string)
    ensures forall k :: 0 <= k < |s| - |TrimStart(s)| ==> IsWhiteSpace(s[k])
    decreases |s|
  {
    if s != [] && IsWhiteSpace(s[0]) {
      TrimStartDrops(s[1..]);
      assert TrimStart(s) == TrimStart(s[1..]);
      forall k | 1 <= k < |s| - |TrimStart(s)| ensures IsWhiteSpace(s[k]) {
        assert s[k] == s[1..][k - 1];
      }
    }
  }

  function TrimEnd(s: string): (r: string)
    ensures |r| <= |s| && r == s[..|r|]
    ensures r == [] || !IsWhiteSpace(r[|r| - 1])
    decreases |s|
  {
    if s != [] && IsWhiteSpace(s[|s| - 1]) then TrimEnd(s[..|s| - 1]) else s
  }

  /** What `TrimEnd` drops is white space. */
  lemma {:induction false} TrimEndDrops(s: string)
    ensures forall k :: |TrimEnd(s)| <= k < |s| ==> IsWhiteSpace(s[k])
    decreases |s|
  {
    if s != [] && IsWhiteSpace(s[|s| - 1]) {
      var p := s[..|s| - 1];
      TrimEndDrops(p);
      assert TrimEnd(s) == TrimEnd(p);
      forall k | |TrimEnd(s)| <= k < |s| - 1 ensures IsWhiteSpace(s[k]) {
        assert s[k] == p[k];
      }
    }
  }

  /** `s.Trim()`: the string without its leading and trailing white space. */
  function Trim(s: string): (r: string)
    ensures r == [] || Tight(r)
    ensures |r| <= |s|
  {
    var t := TrimStart(s);
    var r := TrimEnd(t);
    assert r != [] ==> r[0] == t[0];
    r
  }

  /** What `Trim` keeps is the middle of `s`, character for character, and
      what it drops on either side is white space. */
  lemma TrimKeepsMiddle(s: string)
    ensures var r := Trim(s);
            var a := |s| - |TrimStart(s)|;
            && a + |r| <= |s|
            && (forall k :: 0 <= k < |r| ==> r[k] == s[a + k])
            && (forall k :: 0 <= k < a ==> IsWhiteSpace(s[k]))
            && (forall k :: a + |r| <= k < |s| ==> IsWhiteSpace(s[k]))
  {
    var t := TrimStart(s);
    var r := TrimEnd(t);
    assert Trim(s) == r;
    TrimStartDrops(s);
    TrimEndDrops(t);
    KeptAndDropped(s, t, r);
  }

  lemma KeptAndDropped(s: string, t: string, r: string)
    requires |t| <= |s| && t == s[|s| - |t|..]
    requires |r| <= |t| && r == t[..|r|]
    requires forall k :: |r| <= k < |t| ==> IsWhiteSpace(t[k])
    ensures forall k :: 0 <= k < |r| ==> r[k] == s[|s| - |t| + k]
    ensures forall k :: |s| - |t| + |r| <= k < |s| ==> IsWhiteSpace(s[k])
  {
    var a := |s| - |t|;
    forall k | 0 <= k < |r| ensures r[k] == s[a + k] {
      assert r[k] == t[k];
    }
    forall k | a + |r| <= k < |s| ensures IsWhiteSpace(s[k]) {
      assert s[k] == t[k - a];
    }
  }

  lemma {:induction false} TrimStartPadded(w: string, x: string)
    requires AllWhiteSpace(w) && x != [] && !IsWhiteSpace(x[0])
    ensures TrimStart(w + x) == x
    decreases |w|
  {
    if w != [] {
      assert (w + x)[0] == w[0] && IsWhiteSpace(w[0]);
      assert (w + x)[1..] == w[1..] + x;
      assert TrimStart(w + x) == TrimStart(w[1..] + x);
      TrimStartPadded(w[1..], x);
    } else {
      assert w + x == x;
    }
  }

  lemma {:induction false} TrimEndPadded(x: string, w: string)
    requires AllWhiteSpace(w) && x != [] && !IsWhiteSpace(x[|x| - 1])
    ensures TrimEnd(x + w) == x
    decreases |w|
  {
    if w != [] {
      assert (x + w)[..|x + w| - 1] == x + w[..|w| - 1];
      TrimEndPadded(x, w[..|w| - 1]);
    } else {
      assert x + w == x;
    }
  }

  /** Trimming removes exactly the white space around a tight string. */
  lemma TrimPadded(w1: string, x: string, w2: string)
    requires AllWhiteSpace(w1) && Tight(x) && AllWhiteSpace(w2)
    ensures Trim(w1 + x + w2) == x
  {
    assert w1 + x + w2 == w1 + (x + w2);
    TrimStartPadded(w1, x + w2);
    TrimEndPadded(x, w2);
  }

  // ---------------------------------------------------------------------------
  // Substring and case mapping
  // ---------------------------------------------------------------------------

  /** `s.Substring(start)`: `None` stands for the `ArgumentOutOfRangeException`
      thrown when `start` is past the end. */
  function Substring(s: string, start: nat): (r: Option<string>)
    ensures r.Some? <==> start <= |s|
    ensures r.Some? ==> s == s[..start] + r.value
  {
    if start <= |s| then Some(s[start..]) else None
  }

  function UpperChar(c: char): char {
    if 'a' <= c <= 'z' then (c as int - 'a' as int + 'A' as int) as char else c
  }

  function LowerChar(c: char): char {
    if 'A' <= c <= 'Z' then (c as int - 'A' as int + 'a' as int) as char else c
  }

  /** `s.ToUpper()`: every letter in upper case, nothing else changed. */
  function ToUpper(s: string): (r: string)
    ensures |r| == |s|
    ensures forall k :: 0 <= k < |s| ==> r[k] == UpperChar(s[k])
    ensures forall k :: 0 <= k < |r| ==> !('a' <= r[k] <= 'z')
  {
    seq(|s|, k requires 0 <= k < |s| => UpperChar(s[k]))
  }

  /** `s.ToLower()`: every letter in lower case, nothing else changed. */
  function ToLower(s: string): (r: string)
    ensures |r| == |s|
    ensures forall k :: 0 <= k < |s| ==> r[k] == LowerChar(s[k])
    ensures forall k :: 0 <= k < |r| ==> !('A' <= r[k] <= 'Z')
  {
    seq(|s|, k requires 0 <= k < |s| => LowerChar(s[k]))
  }
}
