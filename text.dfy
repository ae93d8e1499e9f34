/**
 * Text primitives that the server borrows from the Python runtime:
 * `str.split(sep)`, `str.split()` on whitespace, `str(int)`.
 * Strings are sequences of Unicode scalar values.
 */
module Text {
  import opened Wrappers

  /** `sep` occurs in `s` starting at position `j`. */
  predicate OccursAt<T(==)>(s: seq<T>, sep: seq<T>, j: nat) {
    j + |sep| <= |s| && s[j..j + |sep|] == sep
  }

  /** `part in s` for strings: `part` occurs somewhere in `s`. */
  predicate Contains<T(==)>(s: seq<T>, part: seq<T>) {
    exists j: nat | j <= |s| :: OccursAt(s, part, j)
  }

  /** The position of the leftmost occurrence of `sep` in `s`, as `str.find` reports it. */
  function IndexOf<T(==)>(s: seq<T>, sep: seq<T>): (r: Option<nat>)
    requires |sep| > 0
    ensures r.Some? ==> OccursAt(s, sep, r.value)
    ensures r.Some? ==> forall j :: 0 <= j < r.value ==> !OccursAt(s, sep, j)
    ensures r.None? ==> forall j :: 0 <= j <= |s| ==> !OccursAt(s, sep, j)
    decreases |s|
  {
    if |s| < |sep| then None
    else if s[..|sep|] == sep then Some(0)
    else
      OccursAtTail(s, sep);
      match IndexOf(s[1..], sep)
      case None => None
      case Some(i) => Some(i + 1)
  }

  /** An occurrence at a later position of `s` is an occurrence one position earlier in its tail. */
  lemma OccursAtTail<T>(s: seq<T>, sep: seq<T>)
    requires |s| > 0
    ensures forall j: nat :: 1 <= j ==> OccursAt(s, sep, j) == OccursAt(s[1..], sep, j - 1)
  {
    forall j: nat | 1 <= j ensures OccursAt(s, sep, j) == OccursAt(s[1..], sep, j - 1) {
      if j + |sep| <= |s| {
        var here, there := s[j..j + |sep|], s[1..][j - 1..j - 1 + |sep|];
        assert forall k :: 0 <= k < |here| ==> here[k] == there[k];
        assert here == there;
      }
    }
  }

  /** An occurrence with none before it is the one `IndexOf` finds. */
  lemma IndexOfFirst<T>(s: seq<T>, sep: seq<T>, i: nat)
    requires |sep| > 0 && OccursAt(s, sep, i)
    requires forall j :: 0 <= j < i ==> !OccursAt(s, sep, j)
    ensures IndexOf(s, sep) == Some(i)
  {
  }

  /** Python's `s.split(sep)`: the pieces between non-overlapping occurrences, scanned from the left. */
  function Split<T(==)>(s: seq<T>, sep: seq<T>): (r: seq<seq<T>>)
    requires |sep| > 0
    ensures |r| >= 1
    decreases |s|
  {
    match IndexOf(s, sep)
    case None => [s]
    case Some(i) => [s[..i]] + Split(s[i + |sep|..], sep)
  }

  /** Glue pieces back together with `sep` between them: the inverse of `Split`. */
  function Join<T>(pieces: seq<seq<T>>, sep: seq<T>): seq<T>
    requires |pieces| >= 1
    decreases |pieces|
  {
    if |pieces| == 1 then pieces[0] else pieces[0] + sep + Join(pieces[1..], sep)
  }

  /** For a one-element separator, `IndexOf` is the position of the first element equal to it. */
  lemma IndexOfElement<T>(s: seq<T>, c: T)
    ensures IndexOf(s, [c]).None? <==> c !in s
    ensures IndexOf(s, [c]).Some? ==>
              IndexOf(s, [c]).value < |s| && s[IndexOf(s, [c]).value] == c && c !in s[..IndexOf(s, [c]).value]
  {
    forall j | 0 <= j < |s| ensures OccursAt(s, [c], j) <==> s[j] == c {
      assert |s[j..j + 1]| == 1 && s[j..j + 1][0] == s[j];
    }
    match IndexOf(s, [c])
    case None =>
    case Some(i) =>
      assert forall j :: 0 <= j < i ==> s[..i][j] == s[j];
  }

  /** The position of the rightmost `c` in `s`, as `str.rfind` reports it. */
  function LastIndexOf<T(==)>(s: seq<T>, c: T): (r: Option<nat>)
    ensures r.Some? ==> r.value < |s| && s[r.value] == c && c !in s[r.value + 1..]
    ensures r.None? ==> c !in s
    decreases |s|
  {
    if s == [] then None
    else if s[|s| - 1] == c then Some(|s| - 1)
    else
      var front := s[..|s| - 1];
      assert s == front + [s[|s| - 1]];
      match LastIndexOf(front, c)
      case None => None
      case Some(i) =>
        assert s[i + 1..] == front[i + 1..] + [s[|s| - 1]];
        Some(i)
  }

  /** A prefix holds no element its sequence lacks. */
  lemma PrefixWithout<T>(s: seq<T>, p: seq<T>, c: T)
    requires |p| <= |s| && s[..|p|] == p && c !in s
    ensures c !in p
  {
    assert forall j :: 0 <= j < |p| ==> p[j] == s[j];
  }

  /** A middle part holds no element the whole lacks. */
  lemma InfixWithout<T>(a: seq<T>, b: seq<T>, c: seq<T>, x: T)
    requires x !in a + b + c
    ensures x !in b
  {
    assert forall j :: 0 <= j < |b| ==> b[j] == (a + b + c)[|a| + j];
  }

  /** A later suffix holds no element an earlier one lacks. */
  lemma SuffixWithout<T>(s: seq<T>, i: nat, j: nat, x: T)
    requires i <= j <= |s| && x !in s[i..]
    ensures x !in s[j..]
  {
    assert forall k :: 0 <= k < |s| - j ==> s[j..][k] == s[i..][j - i + k];
  }

  /** Three parts without an element join without it. */
  lemma ConcatWithout<T>(a: seq<T>, b: seq<T>, c: seq<T>, x: T)
    requires x !in a && x !in b && x !in c
    ensures x !in a + b + c
  {
    var s := a + b + c;
    forall j | 0 <= j < |s| ensures s[j] != x {
      if j < |a| { assert s[j] == a[j]; }
      else if j < |a| + |b| { assert s[j] == b[j - |a|]; }
      else { assert s[j] == c[j - |a| - |b|]; }
    }
  }

  /** Splitting and joining again gives back the text. */
  lemma {:induction false} JoinSplit<T>(s: seq<T>, sep: seq<T>)
    requires |sep| > 0
    ensures Join(Split(s, sep), sep) == s
    decreases |s|
  {
    match IndexOf(s, sep)
    case None =>
      assert Split(s, sep) == [s];
    case Some(i) =>
      var rest := s[i + |sep|..];
      var pieces := [s[..i]] + Split(rest, sep);
      assert Split(s, sep) == pieces;
      assert pieces[1..] == Split(rest, sep);
      assert Join(pieces, sep) == s[..i] + sep + Join(Split(rest, sep), sep);
      JoinSplit(rest, sep);
      assert s[i..i + |sep|] == sep;
      assert s == s[..i] + s[i..i + |sep|] + rest;
  }

  /** When the first element of `sep` does not occur in `x`, a search in `x + y` skips all of `x`. */
  lemma {:induction false} IndexOfSkip<T>(x: seq<T>, y: seq<T>, sep: seq<T>)
    requires |sep| > 0 && sep[0] !in x
    ensures IndexOf(x + y, sep) == match IndexOf(y, sep) { case None => None case Some(i) => Some(|x| + i) }
    decreases |x|
  {
    if x != [] {
      var xy := x + y;
      assert xy[1..] == x[1..] + y;
      assert xy[0] == x[0] != sep[0];
      assert |xy| >= |sep| ==> xy[..|sep|][0] != sep[0];
      assert sep[0] !in x[1..];
      IndexOfSkip(x[1..], y, sep);
    } else {
      assert x + y == y;
    }
  }

  /** A separator at the front is found at once. */
  lemma IndexOfFront<T>(sep: seq<T>, y: seq<T>)
    requires |sep| > 0
    ensures IndexOf(sep + y, sep) == Some(0)
  {
    assert (sep + y)[..|sep|] == sep;
  }

  /** A piece that holds no first element of the separator comes out of `Split` whole. */
  lemma SplitFirst<T>(x: seq<T>, y: seq<T>, sep: seq<T>)
    requires |sep| > 0 && sep[0] !in x
    ensures Split(x + sep + y, sep) == [x] + Split(y, sep)
  {
    IndexOfFront(sep, y);
    IndexOfSkip(x, sep + y, sep);
    assert x + sep + y == x + (sep + y);
    assert (x + sep + y)[..|x|] == x;
    assert (x + sep + y)[|x| + |sep|..] == y;
  }

  /** Pieces free of the separator's first element are what `Split` returns for their join. */
  lemma {:induction false} SplitJoin<T>(pieces: seq<seq<T>>, sep: seq<T>)
    requires |pieces| >= 1 && |sep| > 0
    requires forall k :: 0 <= k < |pieces| ==> sep[0] !in pieces[k]
    ensures Split(Join(pieces, sep), sep) == pieces
    decreases |pieces|
  {
    if |pieces| == 1 {
      SplitNone(pieces[0], sep);
    } else {
      SplitJoin(pieces[1..], sep);
      SplitFirst(pieces[0], Join(pieces[1..], sep), sep);
      assert pieces == [pieces[0]] + pieces[1..];
    }
  }

  /** Text without the separator's first element is one piece. */
  lemma SplitNone<T>(x: seq<T>, sep: seq<T>)
    requires |sep| > 0 && sep[0] !in x
    ensures Split(x, sep) == [x]
  {
    IndexOfSkip(x, [], sep);
    assert x + [] == x;
  }

  // ----- whitespace tokens, as Python's `str.split()` with no argument -----

  /**
   * The characters Python's `str.isspace` accepts: those of bidirectional class
   * WS, B or S and those of general category Zs.
   */
  predicate IsSpace(c: char) {
    var n := c as int;
    (0x09 <= n <= 0x0D) || (0x1C <= n <= 0x20) || n == 0x85 || n == 0xA0 || n == 0x1680
    || (0x2000 <= n <= 0x200A) || n == 0x2028 || n == 0x2029 || n == 0x202F || n == 0x205F
    || n == 0x3000
  }

  predicate NoSpace(s: string) {
    forall i :: 0 <= i < |s| ==> !IsSpace(s[i])
  }

  /** Length of the leading run of non-space characters. */
  function WordLength(s: string): (n: nat)
    ensures n <= |s|
    ensures NoSpace(s[..n])
    ensures n < |s| ==> IsSpace(s[n])
    decreases |s|
  {
    if s == [] || IsSpace(s[0]) then 0 else 1 + WordLength(s[1..])
  }

  /** Python's `s.split()`: the maximal runs of non-space characters, in order. */
  function Tokens(s: string): (r: seq<string>)
    ensures forall k :: 0 <= k < |r| ==> r[k] != [] && NoSpace(r[k])
    decreases |s|
  {
    if s == [] then []
    else if IsSpace(s[0]) then Tokens(s[1..])
    else
      var n := WordLength(s);
      [s[..n]] + Tokens(s[n..])
  }

  /** A word with no space in it is one run. */
  lemma {:induction false} WordLengthOfWord(w: string, rest: string)
    requires NoSpace(w)
    requires rest == [] || IsSpace(rest[0])
    ensures WordLength(w + rest) == |w|
    decreases |w|
  {
    if w != [] {
      assert (w + rest)[1..] == w[1..] + rest;
      assert NoSpace(w[1..]) by {
        forall i | 0 <= i < |w[1..]| ensures !IsSpace(w[1..][i]) { assert w[1..][i] == w[i + 1]; }
      }
      WordLengthOfWord(w[1..], rest);
    } else {
      assert w + rest == rest;
    }
  }

  /** Leading whitespace does not yield a token. */
  lemma {:induction false} TokensSkipSpace(sp: string, s: string)
    requires forall i :: 0 <= i < |sp| ==> IsSpace(sp[i])
    ensures Tokens(sp + s) == Tokens(s)
    decreases |sp|
  {
    if sp != [] {
      assert (sp + s)[1..] == sp[1..] + s;
      TokensSkipSpace(sp[1..], s);
    } else {
      assert sp + s == s;
    }
  }

  /** A non-empty space-free word followed by a space is the first token. */
  lemma TokensOfWord(w: string, c: char, rest: string)
    requires w != [] && NoSpace(w) && IsSpace(c)
    ensures Tokens(w + [c] + rest) == [w] + Tokens(rest)
  {
    var s := w + [c] + rest;
    assert s == w + ([c] + rest);
    WordLengthOfWord(w, [c] + rest);
    assert s[..|w|] == w;
    assert s[|w|..] == [c] + rest;
    assert ([c] + rest)[1..] == rest;
  }

  /** A non-empty space-free word on its own is one token. */
  lemma TokensOfLastWord(w: string)
    requires w != [] && NoSpace(w)
    ensures Tokens(w) == [w]
  {
    WordLengthOfWord(w, []);
    assert w + [] == w;
  }

  // ----- decimal numerals, as Python's `str(n)` -----

  predicate IsDigit(c: char) { '0' <= c <= '9' }

  function DigitChar(d: nat): (c: char)
    requires d < 10
    ensures IsDigit(c) && DigitValue(c) == d
  {
    ('0' as int + d) as char
  }

  /** The decimal numeral of `n`, without leading zeros. */
  function NatToDecimal(n: nat): (s: string)
    ensures s != [] && forall i :: 0 <= i < |s| ==> IsDigit(s[i])
    ensures |s| > 1 ==> s[0] != '0'
    decreases n
  {
    if n < 10 then [DigitChar(n)] else NatToDecimal(n / 10) + [DigitChar(n % 10)]
  }

  /** `str(i)` for an integer: a minus sign before the digits of a negative number. */
  function IntToDecimal(i: int): (s: string)
    ensures s != [] && ' ' !in s && '\r' !in s && '\n' !in s
  {
    if i < 0 then "-" + NatToDecimal(-i) else NatToDecimal(i)
  }

  function DigitValue(c: char): nat
    requires IsDigit(c)
  {
    c as int - '0' as int
  }

  /** The value of a string of digits, read left to right. */
  function DigitsValue(s: string): nat
    requires forall i :: 0 <= i < |s| ==> IsDigit(s[i])
    decreases |s|
  {
    if s == [] then 0 else 10 * DigitsValue(s[..|s| - 1]) + DigitValue(s[|s| - 1])
  }

  /** Reads a decimal numeral of one or more digits. */
  function ParseNat(s: string): Option<nat> {
    if s != [] && forall i :: 0 <= i < |s| ==> IsDigit(s[i]) then Some(DigitsValue(s)) else None
  }

  /** Reads a decimal numeral with an optional leading minus sign. */
  function ParseInt(s: string): Option<int> {
    if s != [] && s[0] == '-' then
      match ParseNat(s[1..])
      case None => None
      case Some(n) => Some(0 - n)
    else
      match ParseNat(s)
      case None => None
      case Some(n) => Some(n)
  }

  lemma {:induction false} DigitsValueOfDecimal(n: nat)
    ensures DigitsValue(NatToDecimal(n)) == n
    decreases n
  {
    if n >= 10 {
      DigitsValueOfDecimal(n / 10);
      var s := NatToDecimal(n);
      assert s[..|s| - 1] == NatToDecimal(n / 10);
    }
  }

  /** Reading back a numeral gives the number: `ParseNat` inverts `NatToDecimal`. */
  lemma NatRoundTrip(n: nat)
    ensures ParseNat(NatToDecimal(n)) == Some(n)
  {
    DigitsValueOfDecimal(n);
  }

  /** Reading back the text of any integer gives that integer. */
  lemma IntRoundTrip(i: int)
    ensures ParseInt(IntToDecimal(i)) == Some(i)
  {
    if i < 0 {
      NatRoundTrip(-i);
      assert IntToDecimal(i)[1..] == NatToDecimal(-i);
    } else {
      NatRoundTrip(i);
    }
  }
}
