/**
 * The Python string and path built-ins that the checker relies on,
 * written out so that the rest of the model can reason about them:
 * substring membership (`word in line`), `str.startswith`, `str.endswith`,
 * `str.split(sep)`, `posixpath.join` for two components and `str(n)` for a
 * natural number.
 */
module PyStrings {

  /** `w` occurs in `s` starting at index `i`. */
  predicate OccursAt(s: string, w: string, i: nat) {
    i + |w| <= |s| && s[i..i + |w|] == w
  }

  /** Python's `w in s` for two strings: a case-sensitive substring test. */
  function Contains(s: string, w: string): bool
    decreases |s|
  {
    if |w| > |s| then false
    else s[..|w|] == w || Contains(s[1..], w)
  }

  /** The scan of `Contains` agrees with the positional definition of substring. */
  lemma {:induction false} ContainsIff(s: string, w: string)
    ensures Contains(s, w) <==> exists i: nat :: OccursAt(s, w, i)
    decreases |s|
  {
    if |w| > |s| {
      forall i: nat ensures !OccursAt(s, w, i) { }
    } else if s[..|w|] == w {
      assert OccursAt(s, w, 0);
    } else {
      ContainsIff(s[1..], w);
      if Contains(s[1..], w) {
        var i: nat :| OccursAt(s[1..], w, i);
        assert s[i + 1..i + 1 + |w|] == s[1..][i..i + |w|];
        assert OccursAt(s, w, i + 1);
      } else {
        forall i: nat | OccursAt(s, w, i) ensures false {
          if i > 0 {
            assert s[1..][i - 1..i - 1 + |w|] == s[i..i + |w|];
            assert OccursAt(s[1..], w, i - 1);
          }
        }
      }
    }
  }

  /** A witness position is enough to conclude `Contains`. */
  lemma ContainsAt(s: string, w: string, i: nat)
    requires OccursAt(s, w, i)
    ensures Contains(s, w)
  {
    ContainsIff(s, w);
  }

  /** A string ending in `w` contains `w`. */
  lemma ContainsSuffix(a: string, w: string)
    ensures Contains(a + w, w)
  {
    assert (a + w)[|a|..|a| + |w|] == w;
    ContainsAt(a + w, w, |a|);
  }

  /** Text added after a string keeps what it contains. */
  lemma ContainsExtend(s: string, w: string, b: string)
    requires Contains(s, w)
    ensures Contains(s + b, w)
  {
    ContainsIff(s, w);
    var i: nat :| OccursAt(s, w, i);
    assert (s + b)[i..i + |w|] == s[i..i + |w|];
    ContainsAt(s + b, w, i);
  }

  /** A word with a character the text lacks does not occur in it. */
  lemma Lacks(s: string, w: string, c: char)
    requires c in w && c !in s
    ensures !Contains(s, w)
  {
    ContainsIff(s, w);
  }

  /** The pieces of an f-string, joined in order. */
  function Concat(parts: seq<string>): string {
    if parts == [] then [] else parts[0] + Concat(parts[1..])
  }

  /** Python's `s.startswith(p)`. */
  predicate StartsWith(s: string, p: string) {
    |p| <= |s| && s[..|p|] == p
  }

  /** Python's `s.endswith(x)`. */
  predicate EndsWith(s: string, x: string) {
    |x| <= |s| && s[|s| - |x|..] == x
  }

  /** A different first character rules out a prefix. */
  lemma NotStartsWith(s: string, p: string)
    requires |s| >= 1 && |p| >= 1 && s[0] != p[0]
    ensures !StartsWith(s, p)
  {
    assert |p| <= |s| ==> s[..|p|][0] == s[0];
  }

  /** A different last character rules out a suffix. */
  lemma NotEndsWith(s: string, x: string)
    requires |s| >= 1 && |x| >= 1 && s[|s| - 1] != x[|x| - 1]
    ensures !EndsWith(s, x)
  {
    assert |x| <= |s| ==> s[|s| - |x|..][|x| - 1] == s[|s| - 1];
  }

  /** The index of the first `c` in `s`, or `|s|` when there is none. */
  function Find(s: string, c: char): (i: nat)
    ensures i <= |s|
    ensures i < |s| ==> s[i] == c
  {
    if s == [] then 0
    else if s[0] == c then 0
    else 1 + Find(s[1..], c)
  }

  /** No `c` comes before the position `Find` returns. */
  lemma {:induction false} FindFirst(s: string, c: char, k: nat)
    requires k < Find(s, c)
    ensures s[k] != c
  {
    if k > 0 {
      FindFirst(s[1..], c, k - 1);
    }
  }

  /** Python's `s.split(sep)` for a one-character separator. */
  function Split(s: string, sep: char): (parts: seq<string>)
    ensures |parts| >= 1
    decreases |s|
  {
    var i := Find(s, sep);
    if i == |s| then [s] else [s[..i]] + Split(s[i + 1..], sep)
  }

  /** Python's `x in xs` on a list of strings. */
  function ListContains(xs: seq<string>, x: string): (b: bool)
    ensures b <==> x in xs
  {
    xs != [] && (xs[0] == x || ListContains(xs[1..], x))
  }

  /** Python's `sep.join(parts)` for a one-character separator. */
  function JoinWith(parts: seq<string>, sep: char): string
    requires |parts| >= 1
  {
    if |parts| == 1 then parts[0] else parts[0] + [sep] + JoinWith(parts[1..], sep)
  }

  /** `Find` returns the first separator position, whatever way that position is known. */
  lemma FindIs(s: string, c: char, n: nat)
    requires n <= |s| && (n == |s| || s[n] == c)
    requires forall k :: 0 <= k < n ==> s[k] != c
    ensures Find(s, c) == n
  {
    if Find(s, c) > n {
      FindFirst(s, c, n);
    }
  }

  /** In a part followed by a separator, the first separator is the one after the part. */
  lemma FindAfterPart(p: string, sep: char, r: string)
    requires sep !in p
    ensures Find(p + [sep] + r, sep) == |p|
  {
    var s := p + [sep] + r;
    forall k | 0 <= k < |p| ensures s[k] != sep {
      assert s[k] == p[k];
    }
    FindIs(s, sep, |p|);
  }

  /** A text without the separator has no first separator. */
  lemma FindNone(p: string, sep: char)
    requires sep !in p
    ensures Find(p, sep) == |p|
  {
    FindIs(p, sep, |p|);
  }

  /** Separator-free parts, joined and split again, come back unchanged. */
  lemma {:induction false} SplitJoin(parts: seq<string>, sep: char)
    requires |parts| >= 1
    requires forall j :: 0 <= j < |parts| ==> sep !in parts[j]
    ensures Split(JoinWith(parts, sep), sep) == parts
  {
    if |parts| == 1 {
      FindNone(parts[0], sep);
    } else {
      var p, r := parts[0], JoinWith(parts[1..], sep);
      var s := p + [sep] + r;
      FindAfterPart(p, sep, r);
      assert s[..|p|] == p;
      assert s[|p| + 1..] == r;
      SplitJoin(parts[1..], sep);
      assert parts == [p] + parts[1..];
    }
  }

  /** Joining a list that has a head and a non-empty tail. */
  lemma JoinCons(p: string, rest: seq<string>, sep: char)
    requires |rest| >= 1
    ensures JoinWith([p] + rest, sep) == p + [sep] + JoinWith(rest, sep)
  {
    assert ([p] + rest)[1..] == rest;
  }

  /** A string is what comes before position `i`, the character there, and what follows. */
  lemma Around(s: string, i: nat)
    requires i < |s|
    ensures s[..i] + [s[i]] + s[i + 1..] == s
  {
  }

  /** Splitting at a first separator. */
  lemma SplitAtFirst(s: string, sep: char)
    requires Find(s, sep) < |s|
    ensures Split(s, sep) == [s[..Find(s, sep)]] + Split(s[Find(s, sep) + 1..], sep)
  {
  }

  /** Joining the parts of a split gives back the string. */
  lemma {:induction false} JoinSplit(s: string, sep: char)
    ensures JoinWith(Split(s, sep), sep) == s
    decreases |s|
  {
    var i := Find(s, sep);
    if i < |s| {
      var t := s[i + 1..];
      SplitAtFirst(s, sep);
      JoinCons(s[..i], Split(t, sep), sep);
      JoinSplit(t, sep);
      Around(s, i);
    }
  }

  /** No part of a split contains the separator. */
  lemma {:induction false} SplitSepFree(s: string, sep: char)
    ensures forall j :: 0 <= j < |Split(s, sep)| ==> sep !in Split(s, sep)[j]
    decreases |s|
  {
    var i := Find(s, sep);
    forall k | 0 <= k < i ensures s[..i][k] != sep {
      FindFirst(s, sep, k);
    }
    if i < |s| {
      SplitSepFree(s[i + 1..], sep);
      var rest := Split(s[i + 1..], sep);
      assert Split(s, sep) == [s[..i]] + rest;
    } else {
      assert s[..i] == s;
    }
  }

  /**
   * `Split` gives the one list of separator-free parts whose join is `s`:
   * a candidate list is the split exactly when it joins to `s` and none of
   * its parts holds the separator.
   */
  lemma SplitIff(s: string, sep: char, parts: seq<string>)
    requires |parts| >= 1
    ensures Split(s, sep) == parts <==>
      JoinWith(parts, sep) == s && forall j :: 0 <= j < |parts| ==> sep !in parts[j]
  {
    if Split(s, sep) == parts {
      JoinSplit(s, sep);
      SplitSepFree(s, sep);
    }
    if JoinWith(parts, sep) == s && forall j :: 0 <= j < |parts| ==> sep !in parts[j] {
      SplitJoin(parts, sep);
    }
  }

  /**
   * `posixpath.join(root, name)`: an absolute second part replaces the first;
   * otherwise a separator is inserted unless `root` is empty or already ends
   * in one.
   */
  function Join(root: string, name: string): string {
    if StartsWith(name, "/") then name
    else if root == [] || EndsWith(root, "/") then root + name
    else root + "/" + name
  }

  /** Joining one more element onto a non-empty list. */
  lemma {:induction false} JoinSnoc(parts: seq<string>, x: string, sep: char)
    requires |parts| >= 1
    ensures JoinWith(parts + [x], sep) == JoinWith(parts, sep) + [sep] + x
    decreases |parts|
  {
    if |parts| > 1 {
      JoinSnoc(parts[1..], x, sep);
      assert (parts + [x])[1..] == parts[1..] + [x];
    }
  }

  /**
   * Joining a `/`-free name onto a non-empty directory that does not end in
   * `/` inserts one separator, so the name becomes one more path component.
   */
  lemma JoinAddsComponent(root: string, name: string)
    requires root != [] && !EndsWith(root, "/") && '/' !in name
    ensures Join(root, name) == root + "/" + name
    ensures Split(Join(root, name), '/') == Split(root, '/') + [name]
  {
    if name != [] {
      NotStartsWith(name, "/");
    }
    var parts := Split(root, '/') + [name];
    JoinSnoc(Split(root, '/'), name, '/');
    JoinSplit(root, '/');
    SplitSepFree(root, '/');
    forall j | 0 <= j < |parts| ensures '/' !in parts[j] {
      if j < |parts| - 1 {
        assert parts[j] == Split(root, '/')[j];
      }
    }
    SplitIff(root + "/" + name, '/', parts);
  }

  predicate IsDigit(c: char) {
    '0' <= c <= '9'
  }

  function DigitChar(d: nat): (c: char)
    requires d < 10
    ensures IsDigit(c)
  {
    ('0' as int + d) as char
  }

  function DigitValue(c: char): nat
    requires IsDigit(c)
  {
    (c as int - '0' as int) as nat
  }

  /** Python's `str(n)` for a natural number: its decimal digits. */
  function NatToString(n: nat): (s: string)
    ensures |s| >= 1 && forall c :: c in s ==> IsDigit(c)
  {
    if n < 10 then [DigitChar(n)] else NatToString(n / 10) + [DigitChar(n % 10)]
  }

  /** `str(n)` of a positive number has no leading zero. */
  lemma {:induction false} NoLeadingZero(n: nat)
    requires n > 0
    ensures NatToString(n)[0] != '0'
  {
    if n >= 10 {
      NoLeadingZero(n / 10);
    }
  }

  /** The number a string of decimal digits denotes. */
  function DecimalValue(s: string): nat
    requires forall c :: c in s ==> IsDigit(c)
  {
    if s == [] then 0
    else
      assert s[|s| - 1] in s;
      assert forall c :: c in s[..|s| - 1] ==> c in s;
      DecimalValue(s[..|s| - 1]) * 10 + DigitValue(s[|s| - 1])
  }

  /** Reading back the digits `str(n)` writes gives `n`. */
  lemma {:induction false} DecimalRoundTrip(n: nat)
    ensures DecimalValue(NatToString(n)) == n
  {
    if n >= 10 {
      DecimalRoundTrip(n / 10);
      var s := NatToString(n);
      assert s[..|s| - 1] == NatToString(n / 10);
    }
  }

  /** `str(n)` is injective on natural numbers. */
  lemma NatToStringInjective(m: nat, n: nat)
    requires NatToString(m) == NatToString(n)
    ensures m == n
  {
    DecimalRoundTrip(m);
    DecimalRoundTrip(n);
  }
}
