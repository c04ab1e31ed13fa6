/**
  The string operations the dashboard relies on, over `seq<char>`:
  ASCII `toLowerCase`, `includes`, `split` on one character, `trim`, the `/\s+/g` replacement used to build component ids, and
  `Number.prototype.toString` for integers.
*/
module Text {
  import opened Wrappers

  /** The characters `\s` matches and `trim` removes: ECMAScript WhiteSpace and LineTerminator. */
  predicate IsWhitespace(c: char) {
    c == ' ' || c == '\t' || c == '\n' || c == '\r' || c == '\U{000B}' || c == '\U{000C}'
    || c == '\U{00A0}' || c == '\U{1680}' || ('\U{2000}' <= c <= '\U{200A}')
    || c == '\U{2028}' || c == '\U{2029}' || c == '\U{202F}' || c == '\U{205F}'
    || c == '\U{3000}' || c == '\U{FEFF}'
  }

  // ---------------------------------------------------------------- case

  function LowerChar(c: char): char {
    if 'A' <= c <= 'Z' then (c as int + 32) as char else c
  }

  /** `toLowerCase` restricted to ASCII letters. */
  function Lower(s: string): (r: string)
    ensures |r| == |s|
    ensures forall i :: 0 <= i < |s| ==> r[i] == LowerChar(s[i])
  {
    seq(|s|, i requires 0 <= i < |s| => LowerChar(s[i]))
  }

  /** Lower-cased text holds no upper-case ASCII letter. */
  lemma LowerHasNoUpper(s: string)
    ensures forall c :: c in Lower(s) ==> !('A' <= c <= 'Z')
  {
  }

  lemma LowerIdempotent(s: string)
    ensures Lower(Lower(s)) == Lower(s)
  {
  }

  lemma LowerSlice(s: string, i: int, j: int)
    requires 0 <= i <= j <= |s|
    ensures Lower(s)[i..j] == Lower(s[i..j])
  {
  }

  // ------------------------------------------------------------ includes

  predicate OccursAt(hay: string, needle: string, i: int) {
    0 <= i && i + |needle| <= |hay| && hay[i..i + |needle|] == needle
  }

  /** `hay.includes(needle)`. */
  predicate Contains(hay: string, needle: string) {
    exists i :: 0 <= i <= |hay| - |needle| && OccursAt(hay, needle, i)
  }

  lemma ContainsEmpty(hay: string)
    ensures Contains(hay, "")
  {
    assert OccursAt(hay, "", 0);
  }

  /** Being a substring is transitive. */
  lemma ContainsTransitive(a: string, b: string, c: string)
    requires Contains(b, a) && Contains(c, b)
    ensures Contains(c, a)
  {
    var i :| 0 <= i <= |b| - |a| && OccursAt(b, a, i);
    var j :| 0 <= j <= |c| - |b| && OccursAt(c, b, j);
    forall k | 0 <= k < |a| ensures c[j + i + k] == a[k] {
      assert a[k] == b[i..i + |a|][k] == b[i + k];
      assert b[i + k] == c[j..j + |b|][i + k] == c[j + i + k];
    }
    assert c[j + i..j + i + |a|] == a;
    assert OccursAt(c, a, j + i);
  }

  /** Lower-casing both sides keeps a substring a substring. */
  lemma ContainsLower(hay: string, needle: string)
    requires Contains(hay, needle)
    ensures Contains(Lower(hay), Lower(needle))
  {
    var i :| 0 <= i <= |hay| - |needle| && OccursAt(hay, needle, i);
    LowerSlice(hay, i, i + |needle|);
    assert OccursAt(Lower(hay), Lower(needle), i);
  }

  // --------------------------------------------------------------- split

  /** Index of the first `c` in `s`, or `|s|` when there is none. */
  function IndexOf(s: string, c: char): (i: nat)
    ensures i <= |s|
    ensures i < |s| ==> s[i] == c
    ensures forall j :: 0 <= j < i ==> s[j] != c
  {
    if s == [] then 0 else if s[0] == c then 0 else 1 + IndexOf(s[1..], c)
  }

  /** `s.split(sep)` for a one-character separator: never empty, `""` splits to `[""]`. */
  function Split(s: string, sep: char): (parts: seq<string>)
    ensures |parts| >= 1
    ensures parts[0] == s[..IndexOf(s, sep)]
    ensures |parts| > 1 <==> sep in s
    decreases |s|
  {
    var i := IndexOf(s, sep);
    if i == |s| then [s] else [s[..i]] + Split(s[i + 1..], sep)
  }

  /** The second piece of a split is the text between the first and the second separator. */
  lemma SplitSecond(s: string, sep: char)
    requires sep in s
    ensures Split(s, sep)[1] == Split(s[IndexOf(s, sep) + 1..], sep)[0]
  {
  }

  /**
    The second piece of a split on `sep`, cut at the first `stop`, holds
    neither character and follows the first piece and its `sep` in `s`.
  */
  lemma SecondSegmentCut(s: string, sep: char, stop: char)
    requires sep in s
    ensures var t := Split(Split(s, sep)[1], stop)[0];
      sep !in t && stop !in t && Split(s, sep)[0] + [sep] + t <= s
  {
    var i := IndexOf(s, sep);
    SecondPiece(s, sep, i);
    var seg := Split(s, sep)[1];
    var m := IndexOf(seg, stop);
    PieceCut(seg, stop, m);
    PrefixFree(seg, m, sep, IndexOf(seg, sep));
    CutPrefix(s, i, seg, m);
  }

  /** The cut second piece runs as far as it can: up to the end of `s`, the next `sep` or a `stop`. */
  lemma SecondSegmentEnd(s: string, sep: char, stop: char)
    requires sep in s
    ensures var t := Split(Split(s, sep)[1], stop)[0];
      var k := |Split(s, sep)[0]| + 1 + |t|;
      k == |s| || s[k] == sep || s[k] == stop
  {
    var i := IndexOf(s, sep);
    SecondPiece(s, sep, i);
    var seg := Split(s, sep)[1];
    var m := IndexOf(seg, stop);
    PieceCut(seg, stop, m);
    SegmentEnd(s, i, seg, m, sep, stop);
  }

  /** The second piece is the text after the first `sep` up to the next one. */
  lemma SecondPiece(s: string, sep: char, i: nat)
    requires sep in s && i == IndexOf(s, sep)
    ensures var seg := Split(s, sep)[1];
      i < |s| && |seg| == IndexOf(s[i + 1..], sep) && seg == s[i + 1..][..|seg|] && sep !in seg && Split(s, sep)[0] == s[..i] && s[i] == sep
  {
    SplitSecond(s, sep);
  }

  /** The first piece of a split is the text before the first `stop`, free of `stop`. */
  lemma PieceCut(seg: string, stop: char, m: nat)
    requires m == IndexOf(seg, stop)
    ensures m <= |seg| && Split(seg, stop)[0] == seg[..m] && stop !in seg[..m]
  {
  }

  /** A prefix that stops at or before the first `c` (`n` is where that is) holds no `c`. */
  lemma PrefixFree(seg: string, m: nat, c: char, n: nat)
    requires n == IndexOf(seg, c) && m <= n
    ensures c !in seg[..m]
  {
  }

  /** The cut ends at the end of `s`, at the next `sep` or at a `stop`. */
  lemma SegmentEnd(s: string, i: nat, seg: string, m: nat, sep: char, stop: char)
    requires i < |s| && |seg| == IndexOf(s[i + 1..], sep) && seg == s[i + 1..][..|seg|]
    requires m == IndexOf(seg, stop)
    ensures i + 1 + m == |s| || s[i + 1 + m] == sep || s[i + 1 + m] == stop
  {
    if m < |seg| {
      assert s[i + 1 + m] == seg[m];
    } else if |seg| < |s| - i - 1 {
      assert s[i + 1 + m] == s[i + 1..][|seg|];
    }
  }

  /** A character of `s` followed by the start of what comes after it extends a prefix of `s`. */
  lemma CutPrefix(s: string, i: nat, seg: string, m: nat)
    requires i < |s| && |seg| <= |s| - i - 1 && seg == s[i + 1..][..|seg|] && m <= |seg|
    ensures s[..i] + [s[i]] + seg[..m] <= s
  {
    assert seg[..m] == s[i + 1..i + 1 + m];
    assert s[..i + 1 + m] == s[..i] + [s[i]] + s[i + 1..i + 1 + m];
  }

  // ---------------------------------------------------------------- trim

  function TrimStart(s: string): (r: string)
    ensures |r| <= |s| && r == s[|s| - |r|..]
    ensures r == [] || !IsWhitespace(r[0])
    ensures forall k :: 0 <= k < |s| - |r| ==> IsWhitespace(s[k])
  {
    if s != [] && IsWhitespace(s[0]) then TrimStart(s[1..]) else s
  }

  function TrimEnd(s: string): (r: string)
    ensures |r| <= |s| && r == s[..|r|]
    ensures r == [] || !IsWhitespace(r[|r| - 1])
    ensures forall k :: |r| <= k < |s| ==> IsWhitespace(s[k])
  {
    if s != [] && IsWhitespace(s[|s| - 1]) then TrimEnd(s[..|s| - 1]) else s
  }

  /** `s.trim()`. */
  function Trim(s: string): string {
    TrimEnd(TrimStart(s))
  }

  predicate IsBlank(s: string) {
    forall k :: 0 <= k < |s| ==> IsWhitespace(s[k])
  }

  /** `trim` yields `""` exactly for strings made only of whitespace (the empty string included). */
  lemma TrimEmptyIffBlank(s: string)
    ensures Trim(s) == "" <==> IsBlank(s)
  {
    var t := TrimStart(s);
    if t != [] {
      assert t[0] == s[|s| - |t|];
      assert TrimEnd(t) != [];
    }
  }

  // -------------------------------------------------------- /\s+/g -> "-"

  /** `s.replace(/\s+/g, "-")`: every maximal run of whitespace becomes one `-`. */
  function DashWhitespaceRuns(s: string): (r: string)
    ensures |r| <= |s|
    ensures forall k :: 0 <= k < |r| ==> !IsWhitespace(r[k])
    decreases |s|
  {
    if s == [] then []
    else if IsWhitespace(s[0]) then "-" + DashWhitespaceRuns(TrimStart(s))
    else [s[0]] + DashWhitespaceRuns(s[1..])
  }

  /** Text without whitespace is left as it is, so the replacement is idempotent. */
  lemma {:induction false} DashWhitespaceRunsIdentity(s: string)
    requires forall k :: 0 <= k < |s| ==> !IsWhitespace(s[k])
    ensures DashWhitespaceRuns(s) == s
  {
    if s != [] {
      DashWhitespaceRunsIdentity(s[1..]);
    }
  }

  /** The replacement adds no character but `-`. */
  lemma {:induction false} DashAddsOnlyDashes(s: string)
    ensures var r := DashWhitespaceRuns(s); forall k :: 0 <= k < |r| ==> r[k] == '-' || r[k] in s
    decreases |s|
  {
    if s != [] {
      var r := DashWhitespaceRuns(s);
      if IsWhitespace(s[0]) {
        var t := TrimStart(s);
        DashAddsOnlyDashes(t);
        assert r == "-" + DashWhitespaceRuns(t);
        forall k | 0 < k < |r| && r[k] != '-' ensures r[k] in s {
          assert r[k] == DashWhitespaceRuns(t)[k - 1];
          assert r[k] in t;
          var j :| 0 <= j < |t| && t[j] == r[k];
          assert s[|s| - |t| + j] == r[k];
        }
      } else {
        var t := s[1..];
        DashAddsOnlyDashes(t);
        assert r == [s[0]] + DashWhitespaceRuns(t);
        forall k | 0 < k < |r| && r[k] != '-' ensures r[k] in s {
          assert r[k] == DashWhitespaceRuns(t)[k - 1];
          assert r[k] in t;
          var j :| 0 <= j < |t| && t[j] == r[k];
          assert s[1 + j] == r[k];
        }
      }
    }
  }

  /** Skipping the leading whitespace of `w + b` leaves `b` when `w` is all whitespace and `b` does not start with any. */
  lemma {:induction false} TrimStartRun(w: string, b: string)
    requires IsBlank(w)
    requires b == [] || !IsWhitespace(b[0])
    ensures TrimStart(w + b) == b
  {
    if w != [] {
      assert (w + b)[1..] == w[1..] + b;
      TrimStartRun(w[1..], b);
    } else {
      assert w + b == b;
    }
  }

  /** A leading whitespace run becomes one `-`. */
  lemma DashRunAtStart(w: string, b: string)
    requires w != [] && IsBlank(w)
    requires b == [] || !IsWhitespace(b[0])
    ensures DashWhitespaceRuns(w + b) == "-" + DashWhitespaceRuns(b)
  {
    assert IsWhitespace((w + b)[0]);
    TrimStartRun(w, b);
  }

  /** A leading character that is not whitespace is kept. */
  lemma DashKeepsFirst(c: char, rest: string)
    requires !IsWhitespace(c)
    ensures DashWhitespaceRuns([c] + rest) == [c] + DashWhitespaceRuns(rest)
  {
    assert ([c] + rest)[0] == c && ([c] + rest)[1..] == rest;
  }

  /** Splitting off the first character of a non-empty left operand. */
  lemma ConcatCons(a: string, x: string)
    requires a != []
    ensures a + x == [a[0]] + (a[1..] + x)
  {
  }

  /** Concatenation is associative. */
  lemma ConcatAssoc(p: string, q: string, r: string)
    ensures p + (q + r) == p + q + r
  {
  }

  /** Text without whitespace in front of anything is kept as it is. */
  lemma {:induction false} DashKeepsPrefix(a: string, x: string)
    requires forall k :: 0 <= k < |a| ==> !IsWhitespace(a[k])
    ensures DashWhitespaceRuns(a + x) == a + DashWhitespaceRuns(x)
    decreases |a|
  {
    if a == [] {
      assert a + x == x;
    } else {
      DashKeepsPrefix(a[1..], x);
      ConcatCons(a, x);
      DashKeepsFirst(a[0], a[1..] + x);
      ConcatCons(a, DashWhitespaceRuns(x));
    }
  }

  /**
    A whitespace run between text without whitespace and text that does not
    start with whitespace becomes exactly one `-`; the text on both sides is kept.
  */
  lemma DashWhitespaceRunsRun(a: string, w: string, b: string)
    requires forall k :: 0 <= k < |a| ==> !IsWhitespace(a[k])
    requires w != [] && IsBlank(w)
    requires b == [] || !IsWhitespace(b[0])
    ensures DashWhitespaceRuns(a + w + b) == a + "-" + DashWhitespaceRuns(b)
  {
    ConcatAssoc(a, w, b);
    DashKeepsPrefix(a, w + b);
    DashRunAtStart(w, b);
    ConcatAssoc(a, "-", DashWhitespaceRuns(b));
  }

  // ------------------------------------------------------------- numbers

  predicate IsDigit(c: char) {
    '0' <= c <= '9'
  }

  function DigitChar(d: int): char
    requires 0 <= d < 10
  {
    ('0' as int + d) as char
  }

  /** `n.toString()` for a non-negative integer: no leading zero except for `0` itself. */
  function NatToDecimal(n: nat): (r: string)
    ensures |r| >= 1
    ensures forall k :: 0 <= k < |r| ==> IsDigit(r[k])
    ensures r[0] == '0' <==> n == 0
  {
    if n < 10 then [DigitChar(n)] else NatToDecimal(n / 10) + [DigitChar(n % 10)]
  }

  /** The form `toString()` prints an integer in: no `-0`, no leading zero except for `0` itself. */
  predicate IsCanonicalDecimal(s: string) {
    && |s| >= 1
    && (s[0] == '-' ==> |s| >= 2 && s[1] != '0')
    && (s[0] == '0' ==> |s| == 1)
  }

  /** `n.toString()` for an integer: never the empty string, in canonical form, signed exactly when negative. */
  function IntToDecimal(n: int): (r: string)
    ensures |r| >= 1
    ensures IsCanonicalDecimal(r)
    ensures r[0] == '-' <==> n < 0
  {
    if n < 0 then "-" + NatToDecimal(-n) else NatToDecimal(n)
  }

  /** The value of a string of decimal digits. */
  function DigitsValue(s: string): int
    requires forall k :: 0 <= k < |s| ==> IsDigit(s[k])
  {
    if s == [] then 0 else 10 * DigitsValue(s[..|s| - 1]) + (s[|s| - 1] as int - '0' as int)
  }

  /** Reads back an optionally signed decimal integer; `None` for anything else. */
  function ParseDecimal(s: string): Option<int> {
    if |s| >= 2 && s[0] == '-' && forall k :: 1 <= k < |s| ==> IsDigit(s[k]) then Some(-DigitsValue(s[1..]))
    else if |s| >= 1 && forall k :: 0 <= k < |s| ==> IsDigit(s[k]) then Some(DigitsValue(s))
    else None
  }

  lemma {:induction false} NatToDecimalRoundTrip(n: nat)
    ensures DigitsValue(NatToDecimal(n)) == n
  {
    if n >= 10 {
      NatToDecimalRoundTrip(n / 10);
      var r := NatToDecimal(n);
      assert r[..|r| - 1] == NatToDecimal(n / 10);
    }
  }

  /** Printing an integer and reading it back gives the integer. */
  lemma IntToDecimalRoundTrip(n: int)
    ensures ParseDecimal(IntToDecimal(n)) == Some(n)
  {
    if n < 0 {
      var d := NatToDecimal(-n);
      NatToDecimalRoundTrip(-n);
      ParseNegative(d);
      assert IntToDecimal(n) == "-" + d;
    } else {
      var d := NatToDecimal(n);
      NatToDecimalRoundTrip(n);
      ParseDigits(d);
    }
  }

  lemma ParseNegative(d: string)
    requires |d| >= 1 && forall k :: 0 <= k < |d| ==> IsDigit(d[k])
    ensures ParseDecimal("-" + d) == Some(-DigitsValue(d))
  {
    var s := "-" + d;
    assert s[1..] == d;
    assert forall k :: 1 <= k < |s| ==> IsDigit(s[k]) by {
      forall k | 1 <= k < |s| ensures IsDigit(s[k]) {
        assert s[k] == d[k - 1];
      }
    }
  }

  lemma ParseDigits(d: string)
    requires |d| >= 1 && forall k :: 0 <= k < |d| ==> IsDigit(d[k])
    ensures ParseDecimal(d) == Some(DigitsValue(d))
  {
    assert d[0] != '-';
  }

  function Pow10(k: nat): nat {
    if k == 0 then 1 else 10 * Pow10(k - 1)
  }

  lemma {:induction false} Pow10Monotone(i: nat, j: nat)
    requires i <= j
    ensures Pow10(i) <= Pow10(j)
    decreases j
  {
    if i < j {
      Pow10Monotone(i, j - 1);
    }
  }

  /** Digits without a leading zero have the value's number of digits. */
  lemma {:induction false} DigitsRange(s: string)
    requires |s| >= 1 && s[0] != '0'
    requires forall k :: 0 <= k < |s| ==> IsDigit(s[k])
    ensures Pow10(|s| - 1) <= DigitsValue(s) < Pow10(|s|)
    decreases |s|
  {
    if |s| > 1 {
      DigitsRange(s[..|s| - 1]);
    }
  }

  /** Two digit strings without a leading zero and with the same value are the same string. */
  lemma {:induction false} DigitsUnique(s: string, t: string)
    requires |s| >= 1 && s[0] != '0' && |t| >= 1 && t[0] != '0'
    requires forall k :: 0 <= k < |s| ==> IsDigit(s[k])
    requires forall k :: 0 <= k < |t| ==> IsDigit(t[k])
    requires DigitsValue(s) == DigitsValue(t)
    ensures s == t
    decreases |s|
  {
    DigitsRange(s);
    DigitsRange(t);
    if |s| < |t| {
      Pow10Monotone(|s|, |t| - 1);
    } else if |t| < |s| {
      Pow10Monotone(|t|, |s| - 1);
    }
    assert |s| == |t|;
    if |s| > 1 {
      var ps, pt := s[..|s| - 1], t[..|t| - 1];
      assert DigitsValue(s) == 10 * DigitsValue(ps) + (s[|s| - 1] as int - '0' as int);
      assert DigitsValue(t) == 10 * DigitsValue(pt) + (t[|t| - 1] as int - '0' as int);
      DigitsUnique(ps, pt);
      assert s == ps + [s[|s| - 1]] && t == pt + [t[|t| - 1]];
    }
  }

  /** A canonical digit string is `"0"` or starts with a non-zero digit, which gives a positive value. */
  lemma CanonicalDigits(s: string)
    requires IsCanonicalDecimal(s) && s[0] != '-'
    requires forall k :: 0 <= k < |s| ==> IsDigit(s[k])
    ensures s == "0" || (s[0] != '0' && DigitsValue(s) >= 1)
  {
    if s[0] != '0' {
      DigitsRange(s);
    }
  }

  /** A canonical decimal is determined by its value: `toString()` has exactly one possible output. */
  lemma CanonicalDecimalUnique(s: string, t: string)
    requires IsCanonicalDecimal(s) && IsCanonicalDecimal(t)
    requires ParseDecimal(s).Some? && ParseDecimal(s) == ParseDecimal(t)
    ensures s == t
  {
    if s[0] == '-' && t[0] == '-' {
      CanonicalDigits(s[1..]);
      CanonicalDigits(t[1..]);
      DigitsUnique(s[1..], t[1..]);
      assert s == [s[0]] + s[1..] && t == [t[0]] + t[1..];
    } else if s[0] == '-' {
      CanonicalDigits(s[1..]);
      CanonicalDigits(t);
    } else if t[0] == '-' {
      CanonicalDigits(t[1..]);
      CanonicalDigits(s);
    } else {
      CanonicalDigits(s);
      CanonicalDigits(t);
      assert ParseDecimal(s) == Some(DigitsValue(s)) && ParseDecimal(t) == Some(DigitsValue(t));
      assert DigitsValue("0") == 0;
      if s != "0" && t != "0" {
        DigitsUnique(s, t);
      }
    }
  }
}
