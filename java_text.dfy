/** The few java.lang.String operations the converter and the SAX handler rely on,
    stated over Dafny strings. A Dafny char is a Unicode scalar value, where a Java char is
    a UTF-16 code unit; every character the converter compares is ASCII. */
module JavaText {

  /** A Java reference that may be null. */
  datatype Option<T> = None | Some(value: T)

  /** String.trim removes every leading and trailing char whose code is at most U+0020. */
  predicate IsTrimmable(c: char) {
    c <= ' '
  }

  predicate AllTrimmable(s: string) {
    forall k :: 0 <= k < |s| ==> IsTrimmable(s[k])
  }

  /** Neither end of `s` is a char that String.trim would remove. */
  predicate IsTrimmed(s: string) {
    s == [] || (!IsTrimmable(s[0]) && !IsTrimmable(s[|s| - 1]))
  }

  /** The index of the first char at or after `i` that String.trim keeps, or |s|. */
  function TrimStart(s: string, i: nat): (r: nat)
    requires i <= |s|
    ensures i <= r <= |s|
    ensures r < |s| ==> !IsTrimmable(s[r])
    decreases |s| - i
  {
    if i == |s| || !IsTrimmable(s[i]) then i else TrimStart(s, i + 1)
  }

  /** One past the last char before `n`, and not before `lo`, that String.trim keeps. */
  function TrimEnd(s: string, lo: nat, n: nat): (r: nat)
    requires lo <= n <= |s|
    ensures lo <= r <= n
    ensures r > lo ==> !IsTrimmable(s[r - 1])
  {
    if n == lo || !IsTrimmable(s[n - 1]) then n else TrimEnd(s, lo, n - 1)
  }

  /** String.trim: the longest infix of `s` that neither starts nor ends with a trimmable char. */
  function Trim(s: string): (r: string)
    ensures IsTrimmed(r)
    ensures |r| <= |s|
  {
    var a := TrimStart(s, 0);
    s[a..TrimEnd(s, a, |s|)]
  }

  /** What String.trim removes is trimmable chars only, from the front and from the back. */
  lemma TrimRemovesOnlyTrimmable(s: string)
    ensures var a := TrimStart(s, 0);
            var e := TrimEnd(s, a, |s|);
            Trim(s) == s[a..e] && AllTrimmable(s[..a]) && AllTrimmable(s[e..])
  {
    var a := TrimStart(s, 0);
    var e := TrimEnd(s, a, |s|);
    TrimStartPassesTrimmable(s, 0);
    TrimEndPassesTrimmable(s, a, |s|);
  }

  lemma {:induction false} TrimStartPassesTrimmable(s: string, i: nat)
    requires i <= |s|
    ensures forall k :: i <= k < TrimStart(s, i) ==> IsTrimmable(s[k])
    decreases |s| - i
  {
    if i < |s| && IsTrimmable(s[i]) {
      TrimStartPassesTrimmable(s, i + 1);
    }
  }

  lemma {:induction false} TrimEndPassesTrimmable(s: string, lo: nat, n: nat)
    requires lo <= n <= |s|
    ensures forall k :: TrimEnd(s, lo, n) <= k < n ==> IsTrimmable(s[k])
  {
    if n > lo && IsTrimmable(s[n - 1]) {
      TrimEndPassesTrimmable(s, lo, n - 1);
    }
  }

  lemma TrimKeepsTrimmed(s: string)
    requires IsTrimmed(s)
    ensures Trim(s) == s
  {
    if s != [] {
      assert TrimStart(s, 0) == 0;
      assert TrimEnd(s, 0, |s|) == |s|;
    }
  }

  /** Trimmable chars in front of `s` make no difference to String.trim. */
  lemma TrimSkipsLeadingSpace(p: string, s: string)
    requires AllTrimmable(p)
    ensures Trim(p + s) == Trim(s)
  {
    var t := p + s;
    var a := TrimStart(s, 0);
    var e := TrimEnd(s, a, |s|);
    TrimStartAfterTrimmable(p, s);
    assert TrimEnd(t, |p| + a, |t|) == |p| + e by {
      TrimEndShift(p, s, a);
    }
    assert t[|p| + a..|p| + e] == s[a..e] by {
      SliceAfter(p, s, a, e);
    }
    TrimSameInfix(t, s, |p|, a, e);
  }

  lemma TrimStartAfterTrimmable(p: string, s: string)
    requires AllTrimmable(p)
    ensures TrimStart(p + s, 0) == |p| + TrimStart(s, 0)
  {
    var t := p + s;
    assert forall k :: 0 <= k < |p| ==> t[k] == p[k];
    TrimStartSkips(t, |p|, 0);
    TrimStartShift(p, s, 0);
  }

  /** Two strings whose trimmed bounds differ by a shift and whose kept infixes agree trim alike. */
  lemma TrimSameInfix(t: string, s: string, shift: nat, a: nat, e: nat)
    requires a == TrimStart(s, 0) && e == TrimEnd(s, a, |s|)
    requires TrimStart(t, 0) == shift + a && TrimEnd(t, shift + a, |t|) == shift + e
    requires t[shift + a..shift + e] == s[a..e]
    ensures Trim(t) == Trim(s)
  {
  }

  lemma SliceAfter<T>(p: seq<T>, s: seq<T>, a: nat, b: nat)
    requires a <= b <= |s|
    ensures (p + s)[|p| + a..|p| + b] == s[a..b]
  {
  }

  lemma {:induction false} TrimStartSkips(s: string, j: nat, i: nat)
    requires i <= j <= |s|
    requires forall k :: i <= k < j ==> IsTrimmable(s[k])
    ensures TrimStart(s, i) == TrimStart(s, j)
    decreases j - i
  {
    if i < j {
      TrimStartSkips(s, j, i + 1);
    }
  }

  lemma {:induction false} TrimStartShift(p: string, s: string, i: nat)
    requires i <= |s|
    ensures TrimStart(p + s, |p| + i) == |p| + TrimStart(s, i)
    decreases |s| - i
  {
    if i < |s| {
      assert (p + s)[|p| + i] == s[i];
      TrimStartShift(p, s, i + 1);
    }
  }

  lemma {:induction false} TrimEndShift(p: string, s: string, lo: nat)
    requires lo <= |s|
    ensures TrimEnd(p + s, |p| + lo, |p + s|) == |p| + TrimEnd(s, lo, |s|)
  {
    TrimEndShiftAt(p, s, lo, |s|);
  }

  lemma {:induction false} TrimEndShiftAt(p: string, s: string, lo: nat, n: nat)
    requires lo <= n <= |s|
    ensures TrimEnd(p + s, |p| + lo, |p| + n) == |p| + TrimEnd(s, lo, n)
  {
    if n > lo {
      assert (p + s)[|p| + n - 1] == s[n - 1];
      TrimEndShiftAt(p, s, lo, n - 1);
    }
  }

  /** The index of the first `c` at or after `i`, or -1. */
  function IndexFrom(s: string, c: char, i: nat): (r: int)
    requires i <= |s|
    ensures r == -1 || i <= r < |s|
    ensures r >= 0 ==> s[r] == c
    decreases |s| - i
  {
    if i == |s| then -1 else if s[i] == c then i else IndexFrom(s, c, i + 1)
  }

  lemma {:induction false} IndexFromFirst(s: string, c: char, i: nat)
    requires i <= |s|
    ensures forall k :: i <= k < |s| && (IndexFrom(s, c, i) == -1 || k < IndexFrom(s, c, i)) ==> s[k] != c
    decreases |s| - i
  {
    if i < |s| && s[i] != c {
      IndexFromFirst(s, c, i + 1);
    }
  }

  /** String.indexOf(char). */
  function IndexOf(s: string, c: char): (r: int)
    ensures -1 <= r < |s|
    ensures r >= 0 ==> s[r] == c
  {
    IndexFrom(s, c, 0)
  }

  /** indexOf finds the first occurrence, and -1 exactly when there is none. */
  lemma IndexOfFirst(s: string, c: char)
    ensures IndexOf(s, c) == -1 <==> c !in s
    ensures IndexOf(s, c) >= 0 ==> c !in s[..IndexOf(s, c)]
  {
    IndexFromFirst(s, c, 0);
    var r := IndexOf(s, c);
    if r >= 0 {
      assert s[r] in s;
    }
  }

  /** The index of the last `c` before `n`, or -1. */
  function LastIndexBelow(s: string, c: char, n: nat): (r: int)
    requires n <= |s|
    ensures -1 <= r < n
    ensures r >= 0 ==> s[r] == c
  {
    if n == 0 then -1 else if s[n - 1] == c then n - 1 else LastIndexBelow(s, c, n - 1)
  }

  lemma {:induction false} LastIndexBelowLast(s: string, c: char, n: nat)
    requires n <= |s|
    ensures forall k :: LastIndexBelow(s, c, n) < k < n ==> s[k] != c
  {
    if n > 0 && s[n - 1] != c {
      LastIndexBelowLast(s, c, n - 1);
    }
  }

  /** String.lastIndexOf(char). */
  function LastIndexOf(s: string, c: char): (r: int)
    ensures -1 <= r < |s|
    ensures r >= 0 ==> s[r] == c
  {
    LastIndexBelow(s, c, |s|)
  }

  /** lastIndexOf finds the last occurrence, and -1 exactly when there is none. */
  lemma LastIndexOfLast(s: string, c: char)
    ensures LastIndexOf(s, c) == -1 <==> c !in s
    ensures LastIndexOf(s, c) >= 0 ==> c !in s[LastIndexOf(s, c) + 1..]
  {
    LastIndexBelowLast(s, c, |s|);
    var r := LastIndexOf(s, c);
    if r >= 0 {
      assert s[r] in s;
    }
  }

  /** Character.toLowerCase restricted to the ASCII letters. */
  function LowerChar(c: char): char {
    if 'A' <= c <= 'Z' then (c as int + 32) as char else c
  }

  function Lower(s: string): string {
    seq(|s|, i requires 0 <= i < |s| => LowerChar(s[i]))
  }

  /** String.equalsIgnoreCase, with case folding restricted to the ASCII letters:
      same length, and the chars agree pairwise once lower-cased. */
  predicate EqualsIgnoreCase(a: string, b: string) {
    |a| == |b| && (a == [] || (LowerChar(a[0]) == LowerChar(b[0]) && EqualsIgnoreCase(a[1..], b[1..])))
  }

  /** Comparing ignoring case is comparing the lower-cased strings. */
  lemma {:induction false} EqualsIgnoreCaseLower(a: string, b: string)
    ensures EqualsIgnoreCase(a, b) <==> Lower(a) == Lower(b)
  {
    if |a| == |b| && a != [] {
      EqualsIgnoreCaseLower(a[1..], b[1..]);
      assert Lower(a)[1..] == Lower(a[1..]);
      assert Lower(b)[1..] == Lower(b[1..]);
      assert Lower(a) == [Lower(a)[0]] + Lower(a)[1..];
      assert Lower(b) == [Lower(b)[0]] + Lower(b)[1..];
    }
  }

  /** The number of occurrences of `c` in `s`. */
  function Count(s: string, c: char): nat {
    if s == [] then 0 else Count(s[..|s| - 1], c) + (if s[|s| - 1] == c then 1 else 0)
  }

  lemma {:induction false} CountAbsent(s: string, c: char)
    requires c !in s
    ensures Count(s, c) == 0
  {
    if s != [] {
      CountAbsent(s[..|s| - 1], c);
    }
  }

  lemma {:induction false} CountAppend(a: string, b: string, c: char)
    ensures Count(a + b, c) == Count(a, c) + Count(b, c)
  {
    if b == [] {
      assert a + b == a;
    } else {
      assert (a + b)[..|a + b| - 1] == a + b[..|b| - 1];
      CountAppend(a, b[..|b| - 1], c);
    }
  }

  /** The parts written one after another with `sep` between neighbours, as a
      StringBuilder that appends the separator before every part but the first. */
  function Join(parts: seq<string>, sep: string): string {
    if |parts| == 0 then ""
    else if |parts| == 1 then parts[0]
    else Join(parts[..|parts| - 1], sep) + sep + parts[|parts| - 1]
  }

  /** Join seen from the front. */
  lemma {:induction false} JoinCons(p: string, parts: seq<string>, sep: string)
    requires parts != []
    ensures Join([p] + parts, sep) == p + sep + Join(parts, sep)
  {
    if |parts| > 1 {
      assert ([p] + parts)[..|parts|] == [p] + parts[..|parts| - 1];
      JoinCons(p, parts[..|parts| - 1], sep);
    }
  }

  lemma {:induction false} JoinKeepsFirst(parts: seq<string>, sep: string)
    requires parts != []
    ensures |Join(parts, sep)| >= |parts[0]|
  {
    if |parts| > 1 {
      JoinKeepsFirst(parts[..|parts| - 1], sep);
    }
  }
}
