/**
 * The JavaScript string built-ins the analyzer and the changelog patcher rely
 * on, written as functions on `seq<char>`: `includes`, `split` and `join`,
 * `trim`, `toLowerCase` (ASCII letters), decimal rendering of a number and
 * `parseInt`, and the two searches a backtracking regular-expression match
 * boils down to here (the leftmost position where a pattern matches, and the
 * longest run of characters of one class).
 */
module Text {
  import opened Wrappers

  /** The characters JavaScript treats as line terminators: a regular-expression `.` matches anything else. */
  predicate IsLineTerminator(c: char) {
    c == '\n' || c == '\r' || c == '\U{2028}' || c == '\U{2029}'
  }

  /** JavaScript white space: what `trim` removes and what `\s` matches. */
  predicate IsWhitespace(c: char) {
    || IsLineTerminator(c)
    || c == ' ' || c == '\t' || c == '\U{000B}' || c == '\U{000C}'
    || c == '\U{00A0}' || c == '\U{FEFF}' || c == '\U{1680}'
    || ('\U{2000}' <= c <= '\U{200A}')
    || c == '\U{202F}' || c == '\U{205F}' || c == '\U{3000}'
  }

  /** `\d` without the `u` flag: an ASCII digit. */
  predicate IsDigit(c: char) {
    '0' <= c <= '9'
  }

  predicate AllDigits(s: string) {
    forall k :: 0 <= k < |s| ==> IsDigit(s[k])
  }

  /** `s.includes(t)` */
  predicate Contains(s: string, t: string) {
    exists i :: 0 <= i <= |s| && t <= s[i..]
  }

  lemma ContainsWitness(s: string, t: string, i: nat)
    requires i <= |s| && t <= s[i..]
    ensures Contains(s, t)
  {
  }

  /** What a text contains, its extensions contain too. */
  lemma ContainsInPrefix(s: string, u: string, t: string)
    requires s <= u && Contains(s, t)
    ensures Contains(u, t)
  {
    var i :| 0 <= i <= |s| && t <= s[i..];
    assert s[i..] <= u[i..];
    ContainsWitness(u, t, i);
  }

  function Last<T>(s: seq<T>): T
    requires |s| > 0
  {
    s[|s| - 1]
  }

  // ---------------------------------------------------------------------
  // split and join

  /** `s.split(sep)` for a one-character separator: never empty, and `"".split(sep)` is `[""]`. */
  function Split(s: string, sep: char): (parts: seq<string>)
    ensures |parts| >= 1
    ensures forall k :: 0 <= k < |parts| ==> sep !in parts[k]
    ensures sep !in s ==> parts == [s]
    ensures sep in s ==> |parts| >= 2
    decreases |s|
  {
    if s == [] then [""]
    else
      var rest := Split(s[1..], sep);
      assert s == [s[0]] + s[1..];
      if s[0] == sep then [""] + rest
      else [[s[0]] + rest[0]] + rest[1..]
  }

  /** `parts.join(sep)`: the empty list joins to the empty string. */
  function JoinWith(parts: seq<string>, sep: string): string
  {
    if |parts| == 0 then ""
    else if |parts| == 1 then parts[0]
    else parts[0] + sep + JoinWith(parts[1..], sep)
  }

  /** Joining the pieces of a split with the separator gives the text back. */
  lemma {:induction false} JoinSplit(s: string, sep: char)
    ensures JoinWith(Split(s, sep), [sep]) == s
    decreases |s|
  {
    if s != [] {
      JoinSplit(s[1..], sep);
      var rest := Split(s[1..], sep);
      if s[0] == sep {
        assert ([""] + rest)[1..] == rest;
      } else if |rest| > 1 {
        assert ([[s[0]] + rest[0]] + rest[1..])[1..] == rest[1..];
      }
      assert s == [s[0]] + s[1..];
    }
  }

  /** Splitting a separator-free piece, a separator and a rest gives the piece, then the split of the rest. */
  lemma {:induction false} SplitCons(p: string, sep: char, rest: string)
    requires sep !in p
    ensures Split(p + [sep] + rest, sep) == [p] + Split(rest, sep)
    decreases |p|
  {
    var s := p + [sep] + rest;
    if p == [] {
      assert s[1..] == rest;
    } else {
      assert s[1..] == p[1..] + [sep] + rest;
      SplitCons(p[1..], sep, rest);
      assert [p[0]] + p[1..] == p;
    }
  }

  /** Splitting a join of separator-free pieces gives the pieces back. */
  lemma {:induction false} SplitJoin(parts: seq<string>, sep: char)
    requires |parts| >= 1
    requires forall k :: 0 <= k < |parts| ==> sep !in parts[k]
    ensures Split(JoinWith(parts, [sep]), sep) == parts
    decreases |parts|
  {
    if |parts| > 1 {
      SplitJoin(parts[1..], sep);
      SplitCons(parts[0], sep, JoinWith(parts[1..], [sep]));
      assert [parts[0]] + parts[1..] == parts;
    }
  }

  /** `s.split(sep)[0]` is the text before the first separator. */
  lemma {:induction false} SplitHead(s: string, sep: char)
    ensures var h := Split(s, sep)[0];
      h <= s && (|h| == |s| || s[|h|] == sep)
    decreases |s|
  {
    if s != [] && s[0] != sep {
      SplitHead(s[1..], sep);
    }
  }

  /** The last piece of `s.split(sep)` is the text after the last separator. */
  lemma {:induction false} SplitLast(s: string, sep: char)
    ensures var l := Last(Split(s, sep));
      |l| <= |s| && s[|s| - |l|..] == l && (|l| == |s| || s[|s| - |l| - 1] == sep)
    decreases |s|
  {
    if s != [] {
      SplitLast(s[1..], sep);
      var rest := Split(s[1..], sep);
      if s[0] != sep && |rest| == 1 {
        assert rest == [s[1..]];
        assert [s[0]] + s[1..] == s;
      }
    }
  }

  /** A join of two or more pieces followed by a separator and a rest is its first piece, a separator, and the rest of the join with the same ending. */
  lemma JoinThenShape(parts: seq<string>, sep: char, rest: string)
    requires |parts| > 1
    ensures JoinWith(parts, [sep]) + [sep] + rest == parts[0] + [sep] + (JoinWith(parts[1..], [sep]) + [sep] + rest)
  {
    var a, b := parts[0], JoinWith(parts[1..], [sep]);
    assert JoinWith(parts, [sep]) == a + [sep] + b;
  }

  /** Splitting a join of separator-free pieces, a separator and a rest gives the pieces, then the split of the rest. */
  lemma {:induction false} SplitJoinThen(parts: seq<string>, sep: char, rest: string)
    requires |parts| >= 1
    requires forall k :: 0 <= k < |parts| ==> sep !in parts[k]
    ensures Split(JoinWith(parts, [sep]) + [sep] + rest, sep) == parts + Split(rest, sep)
    decreases |parts|
  {
    if |parts| == 1 {
      SplitCons(parts[0], sep, rest);
    } else {
      var tail := JoinWith(parts[1..], [sep]) + [sep] + rest;
      JoinThenShape(parts, sep, rest);
      SplitCons(parts[0], sep, tail);
      SplitJoinThen(parts[1..], sep, rest);
      var after := Split(rest, sep);
      assert [parts[0]] + (parts[1..] + after) == ([parts[0]] + parts[1..]) + after;
      assert [parts[0]] + parts[1..] == parts;
    }
  }

  /** Splitting at a separator splits the text before it and the text after it apart. */
  lemma SplitAppend(x: string, sep: char, y: string)
    ensures Split(x + [sep] + y, sep) == Split(x, sep) + Split(y, sep)
  {
    JoinSplit(x, sep);
    SplitJoinThen(Split(x, sep), sep, y);
  }

  /** A separator-free text in front of a split joins the first piece. */
  lemma {:induction false} SplitPrepend(p: string, sep: char, m: string)
    requires sep !in p
    ensures var pieces := Split(m, sep);
      Split(p + m, sep) == [p + pieces[0]] + pieces[1..]
    decreases |p|
  {
    if p != [] {
      var s := p + m;
      assert s[1..] == p[1..] + m;
      SplitPrepend(p[1..], sep, m);
      assert [p[0]] + (p[1..] + Split(m, sep)[0]) == p + Split(m, sep)[0];
    } else {
      var pieces := Split(m, sep);
      assert p + m == m;
      assert p + pieces[0] == pieces[0];
      assert pieces == [pieces[0]] + pieces[1..];
    }
  }

  /** A character found neither in the separator nor in any piece is not in the join. */
  lemma JoinWithFree(parts: seq<string>, sep: string, c: char)
    requires c !in sep
    requires forall k :: 0 <= k < |parts| ==> c !in parts[k]
    ensures c !in JoinWith(parts, sep)
    decreases |parts|
  {
    if |parts| > 1 {
      JoinWithFree(parts[1..], sep, c);
    }
  }

  /** A run of digits holds no newline. */
  lemma DigitsNoNewline(s: string)
    requires AllDigits(s)
    ensures '\n' !in s
  {
  }

  /** A join starts with its first piece and ends with its last. */
  lemma {:induction false} JoinWithBounds(parts: seq<string>, sep: string)
    requires |parts| >= 1
    ensures parts[0] <= JoinWith(parts, sep)
    ensures var s := JoinWith(parts, sep);
      |Last(parts)| <= |s| && s[|s| - |Last(parts)|..] == Last(parts)
    decreases |parts|
  {
    if |parts| > 1 {
      JoinWithBounds(parts[1..], sep);
      var rest, l := JoinWith(parts[1..], sep), Last(parts);
      var s := JoinWith(parts, sep);
      assert l == Last(parts[1..]);
      assert s == parts[0] + (sep + rest);
      assert s[|s| - |rest|..] == rest;
      assert s[|s| - |l|..] == rest[|rest| - |l|..];
    }
  }

  /** Every piece occurs in the join. */
  lemma {:induction false} JoinWithContains(parts: seq<string>, sep: string, k: nat)
    requires k < |parts|
    ensures Contains(JoinWith(parts, sep), parts[k])
    decreases k
  {
    var s := JoinWith(parts, sep);
    if k == 0 {
      JoinWithBounds(parts, sep);
      ContainsWitness(s, parts[0], 0);
    } else {
      JoinWithContains(parts[1..], sep, k - 1);
      var rest := JoinWith(parts[1..], sep);
      var i :| 0 <= i <= |rest| && parts[k] <= rest[i..];
      assert s == (parts[0] + sep) + rest;
      assert s[|parts[0] + sep| + i..] == rest[i..];
      ContainsWitness(s, parts[k], |parts[0] + sep| + i);
    }
  }

  // ---------------------------------------------------------------------
  // trim

  function TrimStart(s: string): (r: string)
    ensures |r| <= |s| && r == s[|s| - |r|..]
    ensures forall k :: 0 <= k < |s| - |r| ==> IsWhitespace(s[k])
    ensures r == [] || !IsWhitespace(r[0])
    decreases |s|
  {
    if |s| > 0 && IsWhitespace(s[0]) then TrimStart(s[1..]) else s
  }

  function TrimEnd(s: string): (r: string)
    ensures |r| <= |s| && r == s[..|r|]
    ensures forall k :: |r| <= k < |s| ==> IsWhitespace(s[k])
    ensures r == [] || !IsWhitespace(r[|r| - 1])
    decreases |s|
  {
    if |s| > 0 && IsWhitespace(s[|s| - 1]) then TrimEnd(s[..|s| - 1]) else s
  }

  /** `s.trim()`: the result neither starts nor ends with white space. */
  function Trim(s: string): (r: string)
    ensures |r| <= |s|
    ensures r == [] || (!IsWhitespace(r[0]) && !IsWhitespace(r[|r| - 1]))
  {
    TrimEnd(TrimStart(s))
  }

  /** `r` is `s` from position `a` on, with nothing but white space before it and after it. */
  predicate TrimmedAt(s: string, r: string, a: int)
  {
    && 0 <= a <= |s| - |r|
    && r == s[a..a + |r|]
    && (forall k :: 0 <= k < a ==> IsWhitespace(s[k]))
    && (forall k :: a + |r| <= k < |s| ==> IsWhitespace(s[k]))
  }

  /** Trimming removes white space at both ends and nothing else. */
  lemma TrimRemovesOnlyWhitespace(s: string)
    ensures exists a :: TrimmedAt(s, Trim(s), a)
  {
    var t := TrimStart(s);
    var r := TrimEnd(t);
    var a := |s| - |t|;
    assert Trim(s) == r;
    assert r == s[a..a + |r|];
    forall k | a + |r| <= k < |s| ensures IsWhitespace(s[k]) {
      assert s[k] == t[k - a];
    }
    assert TrimmedAt(s, r, a);
  }

  /** Trimming a text that ends in one newline, and otherwise starts and ends with a visible character, removes just that newline. */
  lemma TrimNewlineTerminated(x: string)
    requires |x| > 0 && !IsWhitespace(x[0]) && !IsWhitespace(x[|x| - 1])
    ensures Trim(x + "\n") == x
  {
    var s := x + "\n";
    assert TrimStart(s) == s;
    assert s[..|s| - 1] == x;
    assert TrimEnd(x) == x;
  }

  // ---------------------------------------------------------------------
  // toLowerCase

  function LowerChar(c: char): char
  {
    if 'A' <= c <= 'Z' then (c as int + 32) as char else c
  }

  predicate IsUpper(c: char) {
    'A' <= c <= 'Z'
  }

  /**
   * `s.toLowerCase()` on ASCII letters: no capital is left, every capital
   * becomes its small letter, and every other character stays as it is.
   */
  function ToLower(s: string): (r: string)
    ensures |r| == |s|
    ensures forall k :: 0 <= k < |r| ==> !IsUpper(r[k])
    ensures forall k :: 0 <= k < |s| && !IsUpper(s[k]) ==> r[k] == s[k]
    ensures forall k :: 0 <= k < |s| && IsUpper(s[k]) ==> r[k] as int == s[k] as int + ('a' as int - 'A' as int)
  {
    seq(|s|, k requires 0 <= k < |s| => LowerChar(s[k]))
  }

  /** Lower-casing twice is lower-casing once. */
  lemma ToLowerIdempotent(s: string)
    ensures ToLower(ToLower(s)) == ToLower(s)
  {
  }

  // ---------------------------------------------------------------------
  // numbers

  function DigitChar(d: nat): char
    requires d < 10
  {
    ('0' as int + d) as char
  }

  function DigitValue(c: char): nat
    requires IsDigit(c)
  {
    c as int - '0' as int
  }

  /** The decimal text a template literal gives for a non-negative integer. */
  function NatToString(n: nat): (s: string)
    ensures |s| >= 1 && AllDigits(s)
    ensures |s| > 1 ==> s[0] != '0'
    decreases n
  {
    if n < 10 then [DigitChar(n)] else NatToString(n / 10) + [DigitChar(n % 10)]
  }

  /** `parseInt` of a run of decimal digits. */
  function ParseDecimal(ds: string): nat
    requires AllDigits(ds)
  {
    if ds == [] then 0 else 10 * ParseDecimal(ds[..|ds| - 1]) + DigitValue(ds[|ds| - 1])
  }

  /** Reading back a rendered number gives the number. */
  lemma {:induction false} ParseNatToString(n: nat)
    ensures ParseDecimal(NatToString(n)) == n
    decreases n
  {
    var s := NatToString(n);
    if n >= 10 {
      ParseNatToString(n / 10);
      assert s[..|s| - 1] == NatToString(n / 10);
    }
  }

  // ---------------------------------------------------------------------
  // searches

  /** The end of the run of digits that starts at `i` (what a greedy `\d+` takes). */
  function DigitsEnd(s: string, i: nat): (k: nat)
    requires i <= |s|
    ensures i <= k <= |s|
    ensures forall m :: i <= m < k ==> IsDigit(s[m])
    ensures k == |s| || !IsDigit(s[k])
    decreases |s| - i
  {
    if i < |s| && IsDigit(s[i]) then DigitsEnd(s, i + 1) else i
  }

  /** The end of a digit run is determined by the run. */
  lemma DigitsEndUnique(s: string, i: nat, k: nat)
    requires i <= k <= |s|
    requires forall m :: i <= m < k ==> IsDigit(s[m])
    requires k == |s| || !IsDigit(s[k])
    ensures DigitsEnd(s, i) == k
  {
  }

  /** The end of the run of white space that starts at `i` (what a greedy `\s*` takes). */
  function WhitespaceEnd(s: string, i: nat): (k: nat)
    requires i <= |s|
    ensures i <= k <= |s|
    ensures forall m :: i <= m < k ==> IsWhitespace(s[m])
    ensures k == |s| || !IsWhitespace(s[k])
    decreases |s| - i
  {
    if i < |s| && IsWhitespace(s[i]) then WhitespaceEnd(s, i + 1) else i
  }

  /** The end of the line that position `i` is on: the first line terminator at or after `i`, or the end of the text. */
  function LineEnd(s: string, i: nat): (k: nat)
    requires i <= |s|
    ensures i <= k <= |s|
    ensures forall m :: i <= m < k ==> !IsLineTerminator(s[m])
    ensures k == |s| || IsLineTerminator(s[k])
    decreases |s| - i
  {
    if i < |s| && !IsLineTerminator(s[i]) then LineEnd(s, i + 1) else i
  }

  /** The last position in `[lo, hi)` that holds `c`. */
  function LastIndexOf(s: string, c: char, lo: nat, hi: nat): (r: Option<nat>)
    requires lo <= hi <= |s|
    ensures r.Some? ==> lo <= r.value < hi && s[r.value] == c
    ensures r.Some? ==> forall m :: r.value < m < hi ==> s[m] != c
    ensures r.None? ==> forall m :: lo <= m < hi ==> s[m] != c
    decreases hi - lo
  {
    if lo == hi then None
    else if s[hi - 1] == c then Some(hi - 1)
    else LastIndexOf(s, c, lo, hi - 1)
  }
}
