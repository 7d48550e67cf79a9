/** The Python string operations the book builder relies on: white space as
    str.isspace() sees it, str.strip(), str.split() with and without a
    separator, str.join(), an ASCII str.lower(), and the decimal and
    zero-padded formatting of non-negative integers. */
module Strings {

  /** str.isspace() for one character: the characters that str.split() with
      no argument and str.strip() with no argument treat as white space. */
  predicate IsSpace(c: char) {
    ('\t' <= c <= '\r') || ('\U{1c}' <= c <= ' ') || c == '\U{85}' || c == '\U{a0}'
    || c == '\U{1680}' || ('\U{2000}' <= c <= '\U{200a}') || c == '\U{2028}'
    || c == '\U{2029}' || c == '\U{202f}' || c == '\U{205f}' || c == '\U{3000}'
  }

  predicate AllSpace(s: string) {
    forall i :: 0 <= i < |s| ==> IsSpace(s[i])
  }

  /** Neither end of s is white space (str.strip() would leave it alone). */
  predicate Trimmed(s: string) {
    s == [] || (!IsSpace(s[0]) && !IsSpace(s[|s| - 1]))
  }

  /** str.lstrip(): a suffix of s, and everything dropped is white space. */
  function StripStart(s: string): (r: string)
    ensures |r| <= |s| && r == s[|s| - |r|..]
    ensures forall i :: 0 <= i < |s| - |r| ==> IsSpace(s[i])
    ensures r != [] ==> !IsSpace(r[0])
  {
    if s != [] && IsSpace(s[0]) then StripStart(s[1..]) else s
  }

  /** str.rstrip(): a prefix of s, and everything dropped is white space. */
  function StripEnd(s: string): (r: string)
    ensures |r| <= |s| && r == s[..|r|]
    ensures forall i :: |r| <= i < |s| ==> IsSpace(s[i])
    ensures r != [] ==> !IsSpace(r[|r| - 1])
  {
    if s != [] && IsSpace(s[|s| - 1]) then StripEnd(s[..|s| - 1]) else s
  }

  /** str.strip(): the result is trimmed, and it is empty exactly when s is
      all white space. */
  function Strip(s: string): (r: string)
    ensures Trimmed(r)
    ensures r == [] <==> AllSpace(s)
    ensures Trimmed(s) ==> r == s
    ensures exists i, j :: 0 <= i <= j <= |s| && r == s[i..j] && AllSpace(s[..i]) && AllSpace(s[j..])
  {
    var t := StripStart(s);
    assert t != [] ==> t[0] == s[|s| - |t|];
    StripIsInfix(s);
    StripEnd(t)
  }

  /** What str.strip() removes is white space on both sides of the result. */
  lemma StripIsInfix(s: string)
    ensures var r := StripEnd(StripStart(s));
      exists i, j :: 0 <= i <= j <= |s| && r == s[i..j] && AllSpace(s[..i]) && AllSpace(s[j..])
  {
    var t := StripStart(s);
    assert |t| <= |s| && t == s[|s| - |t|..];
    assert forall k :: 0 <= k < |s| - |t| ==> IsSpace(s[k]);
    var r := StripEnd(t);
    assert |r| <= |t| && r == t[..|r|];
    assert forall k :: |r| <= k < |t| ==> IsSpace(t[k]);
    SpaceAround(s, t, r);
  }

  /** A prefix r of a suffix t of s, where s has only white space before t
      and t only white space after r, is s with white space cut from both
      ends. */
  lemma SpaceAround(s: string, t: string, r: string)
    requires |t| <= |s| && t == s[|s| - |t|..] && forall k :: 0 <= k < |s| - |t| ==> IsSpace(s[k])
    requires |r| <= |t| && r == t[..|r|] && forall k :: |r| <= k < |t| ==> IsSpace(t[k])
    ensures exists i, j :: 0 <= i <= j <= |s| && r == s[i..j] && AllSpace(s[..i]) && AllSpace(s[j..])
  {
    var i := |s| - |t|;
    var j := i + |r|;
    assert s[i..j] == r;
    assert AllSpace(s[..i]) by {
      forall k | 0 <= k < i
        ensures IsSpace(s[..i][k])
      {
      }
    }
    assert AllSpace(s[j..]) by {
      forall k | 0 <= k < |s| - j
        ensures IsSpace(s[j..][k])
      {
        assert s[j..][k] == t[|r| + k];
      }
    }
  }

  /** sep occurs in s at index i. */
  predicate OccursAt(s: string, sep: string, i: nat) {
    i + |sep| <= |s| && s[i..i + |sep|] == sep
  }

  /** The first index at or after i where sep occurs in s, or |s| if there is none. */
  function Find(s: string, sep: string, i: nat): (k: nat)
    requires |sep| > 0 && i <= |s|
    ensures i <= k <= |s|
    ensures k < |s| ==> OccursAt(s, sep, k)
    ensures forall j :: i <= j < k ==> !OccursAt(s, sep, j)
    decreases |s| - i
  {
    if i == |s| then |s|
    else if OccursAt(s, sep, i) then i
    else Find(s, sep, i + 1)
  }

  /** str.split(sep): cuts s at every occurrence of sep, left to right. */
  function SplitOn(s: string, sep: string): (parts: seq<string>)
    requires |sep| > 0
    ensures |parts| >= 1
    decreases |s|
  {
    var k := Find(s, sep, 0);
    if k == |s| then [s] else [s[..k]] + SplitOn(s[k + |sep|..], sep)
  }

  /** sep.join(parts). */
  function JoinWith(parts: seq<string>, sep: string): string {
    if parts == [] then []
    else if |parts| == 1 then parts[0]
    else parts[0] + sep + JoinWith(parts[1..], sep)
  }

  /** Joining the pieces of a split with the same separator gives back the string. */
  lemma {:induction false} SplitThenJoin(s: string, sep: string)
    requires |sep| > 0
    ensures JoinWith(SplitOn(s, sep), sep) == s
    decreases |s|
  {
    var k := Find(s, sep, 0);
    if k < |s| {
      var rest := s[k + |sep|..];
      var tail := SplitOn(rest, sep);
      SplitThenJoin(rest, sep);
      var parts := [s[..k]] + tail;
      assert SplitOn(s, sep) == parts;
      assert parts[1..] == tail;
      assert JoinWith(parts, sep) == s[..k] + sep + JoinWith(tail, sep);
      assert s == s[..k] + sep + rest by {
        assert s[k..k + |sep|] == sep;
        assert s == s[..k] + s[k..k + |sep|] + s[k + |sep|..];
      }
    }
  }

  /** No piece of a split contains the separator. */
  lemma {:induction false} SplitPartsAreFree(s: string, sep: string)
    requires |sep| > 0
    ensures forall i, j :: 0 <= i < |SplitOn(s, sep)| && 0 <= j ==> !OccursAt(SplitOn(s, sep)[i], sep, j)
    decreases |s|
  {
    var k := Find(s, sep, 0);
    var parts := SplitOn(s, sep);
    if k == |s| {
      assert parts == [s];
    } else {
      var rest := s[k + |sep|..];
      SplitPartsAreFree(rest, sep);
      assert parts == [s[..k]] + SplitOn(rest, sep);
      forall j: nat | OccursAt(s[..k], sep, j)
        ensures false
      {
        assert s[..k][j..j + |sep|] == s[j..j + |sep|];
        assert OccursAt(s, sep, j);
      }
    }
  }

  /** sep cannot occur where the separator's first character does not appear. */
  lemma NoOccurrenceBefore(s: string, sep: string, n: nat)
    requires |sep| > 0 && n <= |s|
    requires forall j :: 0 <= j < n ==> s[j] != sep[0]
    ensures forall j :: 0 <= j < n ==> !OccursAt(s, sep, j)
  {
    forall j | 0 <= j < n
      ensures !OccursAt(s, sep, j)
    {
      if j + |sep| <= |s| {
        assert s[j..j + |sep|][0] == s[j];
      }
    }
  }

  /** When no piece contains the separator's first character, splitting the
      joined string gives back the pieces. */
  lemma {:induction false} JoinThenSplit(parts: seq<string>, sep: string)
    requires |sep| > 0 && |parts| >= 1
    requires forall i, j :: 0 <= i < |parts| && 0 <= j < |parts[i]| ==> parts[i][j] != sep[0]
    ensures SplitOn(JoinWith(parts, sep), sep) == parts
  {
    var s := JoinWith(parts, sep);
    var p := parts[0];
    var k := Find(s, sep, 0);
    if |parts| == 1 {
      assert s == p;
      NoOccurrenceBefore(s, sep, |s|);
    } else {
      var t := JoinWith(parts[1..], sep);
      assert s == p + sep + t;
      assert OccursAt(s, sep, |p|) by {
        assert s[|p|..|p| + |sep|] == sep;
      }
      NoOccurrenceBefore(s, sep, |p|);
      assert k == |p|;
      assert s[..k] == p;
      assert s[k + |sep|..] == t;
      JoinThenSplit(parts[1..], sep);
      assert SplitOn(s, sep) == [p] + SplitOn(t, sep);
    }
  }

  /** The end of the run of non-white-space characters that starts at i. */
  function WordEnd(s: string, i: nat): (k: nat)
    requires i <= |s|
    ensures i <= k <= |s|
    ensures forall j :: i <= j < k ==> !IsSpace(s[j])
    ensures k < |s| ==> IsSpace(s[k])
    decreases |s| - i
  {
    if i == |s| || IsSpace(s[i]) then i else WordEnd(s, i + 1)
  }

  /** A non-empty string without white space. */
  predicate IsWord(w: string) {
    w != [] && forall i :: 0 <= i < |w| ==> !IsSpace(w[i])
  }

  predicate AllWords(ws: seq<string>) {
    forall i :: 0 <= i < |ws| ==> IsWord(ws[i])
  }

  /** str.split() with no argument: the maximal runs of non-white-space
      characters of s, in order. */
  function Words(s: string): (ws: seq<string>)
    ensures AllWords(ws)
    decreases |s|
  {
    if s == [] then []
    else if IsSpace(s[0]) then Words(s[1..])
    else
      var k := WordEnd(s, 0);
      [s[..k]] + Words(s[k..])
  }

  /** The run of non-white-space characters from i ends at the first white
      space at or after i. */
  lemma WordEndIs(s: string, i: nat, k: nat)
    requires i <= k < |s| && IsSpace(s[k])
    requires forall j :: i <= j < k ==> !IsSpace(s[j])
    ensures WordEnd(s, i) == k
  {
  }

  /** A white-space character separates words: splitting around it is
      splitting each side. */
  lemma {:induction false} WordsAcrossSpace(a: string, c: char, b: string)
    requires IsSpace(c)
    ensures Words(a + [c] + b) == Words(a) + Words(b)
    decreases |a|
  {
    var s := a + [c] + b;
    if a == [] {
      assert s[1..] == b;
    } else if IsSpace(a[0]) {
      assert s[1..] == a[1..] + [c] + b;
      WordsAcrossSpace(a[1..], c, b);
    } else {
      var ka := WordEnd(a, 0);
      assert s[..ka] == a[..ka] && IsSpace(s[ka]);
      WordEndIs(s, 0, ka);
      assert s[ka..] == a[ka..] + [c] + b;
      WordsAcrossSpace(a[ka..], c, b);
      assert Words(s) == [a[..ka]] + Words(s[ka..]);
    }
  }

  /** Words and joining with single spaces are inverse on lists of words. */
  lemma {:induction false} WordsOfJoin(ws: seq<string>)
    requires AllWords(ws)
    ensures Words(JoinWith(ws, " ")) == ws
  {
    if ws != [] {
      var w := ws[0];
      var s := JoinWith(ws, " ");
      if |ws| == 1 {
        assert s == w;
        assert !IsSpace(s[0]);
        var k := WordEnd(s, 0);
        assert k == |s|;
        assert s[..k] == w;
        assert s[k..] == [];
        assert Words(s) == [s[..k]] + Words(s[k..]);
      } else {
        var t := JoinWith(ws[1..], " ");
        assert s == w + " " + t;
        var k := WordEnd(s, 0);
        assert s[|w|] == ' ';
        assert k == |w|;
        assert s[..k] == w;
        assert s[k..] == " " + t;
        assert (" " + t)[1..] == t;
        WordsOfJoin(ws[1..]);
        assert Words(s) == [w] + Words(t);
      }
    }
  }

  /** A line made of words joined by single spaces is trimmed, and it is
      empty exactly when there are no words. */
  lemma {:induction false} JoinOfWordsTrimmed(ws: seq<string>)
    requires AllWords(ws)
    ensures Trimmed(JoinWith(ws, " "))
    ensures JoinWith(ws, " ") == [] <==> ws == []
    ensures ws != [] ==> JoinWith(ws, " ")[0] == ws[0][0]
    ensures ws != [] ==> JoinWith(ws, " ")[|JoinWith(ws, " ")| - 1] == ws[|ws| - 1][|ws[|ws| - 1]| - 1]
  {
    if |ws| > 1 {
      JoinOfWordsTrimmed(ws[1..]);
      assert JoinWith(ws, " ") == ws[0] + " " + JoinWith(ws[1..], " ");
    }
  }

  /** Joining a non-empty list extended by one piece. */
  lemma {:induction false} JoinSnoc(parts: seq<string>, x: string, sep: string)
    requires parts != []
    ensures JoinWith(parts + [x], sep) == JoinWith(parts, sep) + sep + x
  {
    if |parts| == 1 {
      assert parts + [x] == [parts[0], x];
    } else {
      assert (parts + [x])[1..] == parts[1..] + [x];
      JoinSnoc(parts[1..], x, sep);
    }
  }

  /** Joining a concatenation of two non-empty lists. */
  lemma {:induction false} JoinAppend(a: seq<string>, b: seq<string>, sep: string)
    requires a != [] && b != []
    ensures JoinWith(a + b, sep) == JoinWith(a, sep) + sep + JoinWith(b, sep)
  {
    if |a| == 1 {
      assert a + b == [a[0]] + b;
      assert (a + b)[1..] == b;
    } else {
      assert (a + b)[1..] == a[1..] + b;
      JoinAppend(a[1..], b, sep);
    }
  }

  /** Concatenation of a sequence of sequences. */
  function Concat<T>(ss: seq<seq<T>>): (r: seq<T>)
    ensures |r| == 0 <==> forall i :: 0 <= i < |ss| ==> ss[i] == []
  {
    if ss == [] then [] else ss[0] + Concat(ss[1..])
  }

  lemma {:induction false} ConcatSnoc<T>(ss: seq<seq<T>>, x: seq<T>)
    ensures Concat(ss + [x]) == Concat(ss) + x
  {
    if ss == [] {
      assert [x][1..] == [];
    } else {
      assert (ss + [x])[1..] == ss[1..] + [x];
      ConcatSnoc(ss[1..], x);
    }
  }

  lemma {:induction false} ConcatAppend<T>(a: seq<seq<T>>, b: seq<seq<T>>)
    ensures Concat(a + b) == Concat(a) + Concat(b)
  {
    if a == [] {
      assert a + b == b;
    } else {
      assert (a + b)[1..] == a[1..] + b;
      ConcatAppend(a[1..], b);
    }
  }

  /** Lower-cases the ASCII letters (the only ones the output formats use). */
  function LowerChar(c: char): (d: char)
    ensures 'A' <= c <= 'Z' ==> 'a' <= d <= 'z' && d as int - c as int == 'a' as int - 'A' as int
    ensures !('A' <= c <= 'Z') ==> d == c
  {
    if 'A' <= c <= 'Z' then (c as int - 'A' as int + 'a' as int) as char else c
  }

  /** str.lower() on ASCII text. */
  function Lower(s: string): (r: string)
    ensures |r| == |s| && forall i :: 0 <= i < |s| ==> r[i] == LowerChar(s[i])
  {
    seq(|s|, i requires 0 <= i < |s| => LowerChar(s[i]))
  }

  predicate IsDigit(c: char) {
    '0' <= c <= '9'
  }

  predicate AllDigits(s: string) {
    forall i :: 0 <= i < |s| ==> IsDigit(s[i])
  }

  function DigitChar(d: nat): (c: char)
    requires d < 10
    ensures IsDigit(c) && c as int - '0' as int == d
  {
    ('0' as int + d) as char
  }

  /** The value of a string of decimal digits. */
  function DigitsValue(s: string): nat
    requires AllDigits(s)
  {
    if s == [] then 0 else DigitsValue(s[..|s| - 1]) * 10 + (s[|s| - 1] as int - '0' as int)
  }

  /** str(n) for a non-negative integer. */
  function Decimal(n: nat): (s: string)
    ensures |s| >= 1 && AllDigits(s)
  {
    if n < 10 then [DigitChar(n)] else Decimal(n / 10) + [DigitChar(n % 10)]
  }

  lemma {:induction false} DecimalValue(n: nat)
    ensures DigitsValue(Decimal(n)) == n
  {
    if n >= 10 {
      DecimalValue(n / 10);
      var s := Decimal(n);
      assert s[..|s| - 1] == Decimal(n / 10);
    }
  }

  /** Python's format `{n:0<width>d}` for a non-negative n: the decimal
      digits, left-padded with '0' up to width characters. */
  function ZeroPad(n: nat, width: nat): (s: string)
    ensures AllDigits(s)
  {
    var d := Decimal(n);
    if |d| >= width then d else seq(width - |d|, _ => '0') + d
  }

  /** Leading zeros do not change the value of a digit string. */
  lemma {:induction false} LeadingZeros(z: string, d: string)
    requires forall i :: 0 <= i < |z| ==> z[i] == '0'
    requires AllDigits(d)
    ensures AllDigits(z + d) && DigitsValue(z + d) == DigitsValue(d)
    decreases |z| + |d|
  {
    if d == [] {
      assert z + d == z;
      if z != [] {
        LeadingZeros(z[..|z| - 1], []);
        assert z[..|z| - 1] + [] == z[..|z| - 1];
      }
    } else {
      var d' := d[..|d| - 1];
      LeadingZeros(z, d');
      assert (z + d)[..|z + d| - 1] == z + d';
    }
  }

  /** The padded number reads back as the number, is exactly width long when
      the number has at most width digits, and is never cut. */
  lemma ZeroPadValue(n: nat, width: nat)
    ensures DigitsValue(ZeroPad(n, width)) == n
    ensures |ZeroPad(n, width)| == if |Decimal(n)| >= width then |Decimal(n)| else width
    ensures ZeroPad(n, width)[|ZeroPad(n, width)| - |Decimal(n)|..] == Decimal(n)
  {
    DecimalValue(n);
    var d := Decimal(n);
    if |d| < width {
      var z := seq(width - |d|, _ => '0');
      LeadingZeros(z, d);
      assert (z + d)[|z|..] == d;
    }
  }

  /** os.path.join(dir, name) on POSIX, for two components. */
  function PathJoin(dir: string, name: string): (path: string)
    ensures name != [] && name[0] != '/' ==> |path| > |name| || dir == []
    ensures EndsWithSeq(path, name)
  {
    if |name| > 0 && name[0] == '/' then name
    else if dir == [] || dir[|dir| - 1] == '/' then dir + name
    else dir + "/" + name
  }

  /** An absolute name replaces the directory; a relative one follows the
      directory, with one '/' put between them exactly when the directory is
      not empty and does not already end in one. */
  lemma PathJoinPlacesName(dir: string, name: string)
    ensures name != [] && name[0] == '/' ==> PathJoin(dir, name) == name
    ensures var path := PathJoin(dir, name);
      name == [] || name[0] != '/' ==>
        && |dir| <= |path| && path[..|dir|] == dir
        && (path[|dir|..] == name || path[|dir|..] == "/" + name)
        && (|path| == |dir| + |name| <==> dir == [] || dir[|dir| - 1] == '/')
  {
  }

  predicate EndsWithSeq(s: string, suffix: string) {
    |suffix| <= |s| && s[|s| - |suffix|..] == suffix
  }
}
