/**
 * The ECMAScript string built-ins the blog's logic relies on, over strings
 * as sequences of characters: the white-space class shared by the regular
 * expression escape `\s` and by `String.prototype.trim`, line terminators,
 * `trim`, `split` on one character, `substring`, `slice`, `startsWith`,
 * the decimal rendering of a non-negative integer and `parseInt(s, 10)`.
 */
module Text {
  import opened Wrappers

  /** WhiteSpace and LineTerminator of ECMAScript: what `\s` matches and `trim` removes. */
  predicate IsSpace(c: char) {
    c == '\t' || c == '\n' || c == '\U{B}' || c == '\U{C}' || c == '\r' || c == ' '
    || c == '\U{A0}' || c == '\U{1680}' || ('\U{2000}' <= c <= '\U{200A}')
    || c == '\U{2028}' || c == '\U{2029}' || c == '\U{202F}' || c == '\U{205F}'
    || c == '\U{3000}' || c == '\U{FEFF}'
  }

  /** Where `^` and `$` match in multiline mode, and what `.` never matches. */
  predicate IsLineTerminator(c: char) {
    c == '\n' || c == '\r' || c == '\U{2028}' || c == '\U{2029}'
  }

  predicate IsLineChar(c: char) { !IsLineTerminator(c) }

  predicate IsDigit(c: char) { '0' <= c <= '9' }

  predicate AllSpace(s: seq<char>) { forall i :: 0 <= i < |s| ==> IsSpace(s[i]) }

  /** The first index at or after `k` whose character is not in the class `p`, or |s|. */
  function RunEnd(s: seq<char>, k: nat, p: char -> bool): (e: nat)
    requires k <= |s|
    ensures k <= e <= |s|
    ensures forall i :: k <= i < e ==> p(s[i])
    ensures e == |s| || !p(s[e])
    decreases |s| - k
  {
    if k == |s| || !p(s[k]) then k else RunEnd(s, k + 1, p)
  }

  /** A run that ends where the class stops is the run `RunEnd` finds. */
  lemma {:induction false} RunEndAt(s: seq<char>, k: nat, j: nat, p: char -> bool)
    requires k <= j <= |s|
    requires forall i :: k <= i < j ==> p(s[i])
    requires j == |s| || !p(s[j])
    ensures RunEnd(s, k, p) == j
    decreases j - k
  {
    if k < j {
      RunEndAt(s, k + 1, j, p);
    }
  }

  /** `s` without its longest prefix of characters in the class `p`. */
  function DropWhile(s: seq<char>, p: char -> bool): (r: seq<char>)
    ensures |r| <= |s| && r == s[|s| - |r|..]
    ensures forall i :: 0 <= i < |s| - |r| ==> p(s[i])
    ensures r == [] || !p(r[0])
  {
    s[RunEnd(s, 0, p)..]
  }

  /** `String.prototype.trimStart`. */
  function TrimStart(s: seq<char>): seq<char> {
    DropWhile(s, IsSpace)
  }

  /** `String.prototype.trimEnd`. */
  function TrimEnd(s: seq<char>): (r: seq<char>)
    ensures |r| <= |s| && r == s[..|r|]
    ensures AllSpace(s[|r|..])
    ensures r == [] || !IsSpace(r[|r| - 1])
  {
    if s != [] && IsSpace(s[|s| - 1]) then TrimEnd(s[..|s| - 1]) else s
  }

  /** How many leading white-space characters `trim` removes. */
  function TrimOffset(s: seq<char>): nat {
    |s| - |TrimStart(s)|
  }

  /** `String.prototype.trim`: the slice of `s` between its leading and trailing white space. */
  function Trim(s: seq<char>): (r: seq<char>)
    ensures TrimOffset(s) + |r| <= |s| && r == s[TrimOffset(s)..TrimOffset(s) + |r|]
    ensures AllSpace(s[..TrimOffset(s)]) && AllSpace(s[TrimOffset(s) + |r|..])
    ensures r == [] <==> AllSpace(s)
    ensures r != [] ==> !IsSpace(r[0]) && !IsSpace(r[|r| - 1])
  {
    var t := TrimStart(s);
    var off := TrimOffset(s);
    var r := TrimEnd(t);
    assert t == s[off..];
    assert AllSpace(s[..off]) by {
      forall i | 0 <= i < off ensures IsSpace(s[..off][i]) { assert s[..off][i] == s[i]; }
    }
    assert s[off + |r|..] == t[|r|..];
    assert s[off..off + |r|] == r;
    assert r != [] ==> !AllSpace(s) by {
      if r != [] {
        assert s[off] == r[0];
      }
    }
    assert r == [] ==> AllSpace(s) by {
      if r == [] {
        assert t == [] by {
          assert t[|r|..] == t;
        }
        assert s[..off] == s;
      }
    }
    r
  }

  /** Trimming a string that neither starts nor ends with white space changes nothing. */
  lemma TrimUntrimmed(s: seq<char>)
    requires s == [] || (!IsSpace(s[0]) && !IsSpace(s[|s| - 1]))
    ensures Trim(s) == s
  {
    if s != [] {
      assert RunEnd(s, 0, IsSpace) == 0;
    }
  }

  /** Leading white space does not change what `trim` keeps. */
  lemma TrimAfterSpace(w: seq<char>, x: seq<char>)
    requires AllSpace(w)
    ensures Trim(w + x) == Trim(x)
  {
    var wx := w + x;
    var f := RunEnd(x, 0, IsSpace);
    assert forall i :: 0 <= i < |w| + f ==> IsSpace(wx[i]) by {
      forall i | 0 <= i < |w| + f ensures IsSpace(wx[i]) {
        if i >= |w| { assert wx[i] == x[i - |w|]; }
      }
    }
    assert |w| + f == |wx| || wx[|w| + f] == x[f];
    RunEndAt(wx, 0, |w| + f, IsSpace);
    assert TrimStart(wx) == TrimStart(x);
  }

  /** `trimEnd` stops at the last character that is not white space. */
  lemma {:induction false} TrimEndAt(t: seq<char>, k: nat)
    requires 0 < k <= |t| && !IsSpace(t[k - 1])
    requires forall i :: k <= i < |t| ==> IsSpace(t[i])
    ensures TrimEnd(t) == t[..k]
    decreases |t|
  {
    if |t| > k {
      var u := t[..|t| - 1];
      assert IsSpace(t[|t| - 1]);
      assert forall i :: k <= i < |u| ==> IsSpace(u[i]);
      TrimEndAt(u, k);
      assert u[..k] == t[..k];
    } else {
      assert t[..k] == t;
    }
  }

  /** `trimStart` stops at the first character that is not white space. */
  lemma TrimStartAt(s: seq<char>, a: nat)
    requires a < |s| && AllSpace(s[..a]) && !IsSpace(s[a])
    ensures TrimStart(s) == s[a..]
  {
    assert forall i :: 0 <= i < a ==> IsSpace(s[i]) by {
      forall i | 0 <= i < a ensures IsSpace(s[i]) { assert s[i] == s[..a][i]; }
    }
    RunEndAt(s, 0, a, IsSpace);
  }

  /** `trim` keeps exactly the part between white space that starts and ends with other characters. */
  lemma TrimBetween(s: seq<char>, a: nat, b: nat)
    requires a < b <= |s|
    requires AllSpace(s[..a]) && AllSpace(s[b..])
    requires !IsSpace(s[a]) && !IsSpace(s[b - 1])
    ensures Trim(s) == s[a..b]
  {
    TrimStartAt(s, a);
    var t := s[a..];
    assert forall i :: b - a <= i < |t| ==> IsSpace(t[i]) by {
      forall i | b - a <= i < |t| ensures IsSpace(t[i]) { assert t[i] == s[b..][i - (b - a)]; }
    }
    TrimEndAt(t, b - a);
    assert t[..b - a] == s[a..b];
  }

  /** Every character `trim` keeps was in its argument. */
  lemma TrimChars(s: seq<char>, c: char)
    requires c in Trim(s)
    ensures c in s
  {
    var r := Trim(s);
    var i :| 0 <= i < |r| && r[i] == c;
    assert s[TrimOffset(s) + i] == c;
  }

  /** `String.prototype.startsWith`. */
  predicate StartsWith(s: seq<char>, prefix: seq<char>) {
    |prefix| <= |s| && s[..|prefix|] == prefix
  }

  /** `s.split(sep)` for a one-character separator. */
  function Split(s: seq<char>, sep: char): (parts: seq<seq<char>>)
    ensures |parts| >= 1
    ensures forall i :: 0 <= i < |parts| ==> sep !in parts[i]
  {
    if s == [] then [[]]
    else
      var rest := Split(s[1..], sep);
      if s[0] == sep then [[]] + rest else [[s[0]] + rest[0]] + rest[1..]
  }

  /** `parts.join(sep)`, the inverse of `Split`. */
  function Join(parts: seq<seq<char>>, sep: char): seq<char>
    requires |parts| >= 1
  {
    if |parts| == 1 then parts[0] else parts[0] + [sep] + Join(parts[1..], sep)
  }

  /** Splitting and joining again gives back the original string. */
  lemma {:induction false} SplitJoin(s: seq<char>, sep: char)
    ensures Join(Split(s, sep), sep) == s
  {
    if s != [] {
      var rest := Split(s[1..], sep);
      SplitJoin(s[1..], sep);
      if s[0] != sep {
        if |rest| > 1 {
          assert Join(Split(s, sep), sep) == [s[0]] + rest[0] + [sep] + Join(rest[1..], sep);
        }
      }
    }
  }

  /** Splitting at a separator the string does not contain yields the whole string. */
  lemma {:induction false} SplitWithoutSeparator(s: seq<char>, sep: char)
    requires sep !in s
    ensures Split(s, sep) == [s]
  {
    if s != [] {
      SplitWithoutSeparator(s[1..], sep);
      assert [s[0]] + s[1..] == s;
    }
  }

  /** A separator between two strings separates their pieces. */
  lemma {:induction false} SplitConcat(a: seq<char>, b: seq<char>, sep: char)
    ensures Split(a + [sep] + b, sep) == Split(a, sep) + Split(b, sep)
  {
    if a == [] {
      assert a + [sep] + b == [sep] + b;
      assert ([sep] + b)[1..] == b;
    } else {
      var ab := a + [sep] + b;
      assert ab[0] == a[0] && ab[1..] == a[1..] + [sep] + b;
      SplitConcat(a[1..], b, sep);
    }
  }

  /** A field without the separator, then the separator: the field comes first. */
  lemma SplitField(a: seq<char>, t: seq<char>, sep: char)
    requires sep !in a
    ensures Split(a + [sep] + t, sep) == [a] + Split(t, sep)
  {
    SplitWithoutSeparator(a, sep);
    SplitConcat(a, t, sep);
  }

  /** Clamps `k` into 0..len, as `substring` does with its arguments. */
  function Clamp(k: int, len: nat): (r: nat)
    ensures r <= len
    ensures 0 <= k <= len ==> r == k
  {
    if k < 0 then 0 else if k > len then len else k
  }

  /** `s.substring(start, end)`: both clamped, swapped when out of order. */
  function Substring(s: seq<char>, start: int, end: int): (r: seq<char>)
    ensures 0 <= start <= end <= |s| ==> r == s[start..end]
    ensures |r| <= |s|
  {
    var a := Clamp(start, |s|);
    var b := Clamp(end, |s|);
    if a <= b then s[a..b] else s[b..a]
  }

  /** A `slice` bound: negative values count back from the end. */
  function SliceBound(k: int, len: nat): (r: nat)
    ensures r <= len
  {
    if k < 0 then (if len + k < 0 then 0 else len + k) else if k > len then len else k
  }

  /** `s.slice(start, end)`. */
  function Slice(s: seq<char>, start: int, end: int): (r: seq<char>)
    ensures 0 <= start <= end <= |s| ==> r == s[start..end]
    ensures 0 <= start <= end ==> |r| <= end - start
    ensures SliceBound(start, |s|) + |r| <= |s|
    ensures r == s[SliceBound(start, |s|)..SliceBound(start, |s|) + |r|]
  {
    var a := SliceBound(start, |s|);
    var b := SliceBound(end, |s|);
    if a < b then s[a..b] else []
  }

  function DigitChar(d: nat): (c: char)
    requires d < 10
    ensures IsDigit(c)
  {
    ('0' as int + d) as char
  }

  function DigitValue(c: char): (d: nat)
    requires IsDigit(c)
    ensures d < 10
  {
    c as int - '0' as int
  }

  predicate AllDigits(s: seq<char>) { forall i :: 0 <= i < |s| ==> IsDigit(s[i]) }

  /** The decimal numeral of `n`, as `${n}` renders a non-negative integer. */
  function Decimal(n: nat): (r: seq<char>)
    ensures r != [] && AllDigits(r)
    decreases n
  {
    if n < 10 then [DigitChar(n)] else Decimal(n / 10) + [DigitChar(n % 10)]
  }

  /** The value of a decimal numeral. */
  function NumeralValue(d: seq<char>): nat
    requires AllDigits(d)
  {
    if d == [] then 0 else NumeralValue(d[..|d| - 1]) * 10 + DigitValue(d[|d| - 1])
  }

  lemma {:induction false} NumeralOfDecimal(n: nat)
    ensures NumeralValue(Decimal(n)) == n
    decreases n
  {
    if n >= 10 {
      var d := Decimal(n);
      assert d[..|d| - 1] == Decimal(n / 10);
      NumeralOfDecimal(n / 10);
    }
  }

  /** `trimStart` then an optional sign: where `parseInt` looks for digits. */
  function Unsigned(s: seq<char>): seq<char> {
    var t := TrimStart(s);
    if t != [] && (t[0] == '+' || t[0] == '-') then t[1..] else t
  }

  predicate IsNegative(s: seq<char>) {
    var t := TrimStart(s);
    t != [] && t[0] == '-'
  }

  /**
   * `parseInt(s, 10)`: skip leading white space, take an optional sign, then
   * the longest run of decimal digits; no digit at all gives `NaN` (None).
   * The value is the exact integer; `-0` is 0, as `===` also treats it.
   */
  function ParseInt(s: seq<char>): (r: Option<int>)
    ensures r.None? <==> (Unsigned(s) == [] || !IsDigit(Unsigned(s)[0]))
  {
    var u := Unsigned(s);
    var digits := u[..RunEnd(u, 0, IsDigit)];
    var v: int := if digits == [] then 0 else NumeralValue(digits);
    if digits == [] then None else Some(if IsNegative(s) then -v else v)
  }

  /** The digit run of a numeral followed by a non-digit is the numeral. */
  lemma DigitRun(d: seq<char>, rest: seq<char>)
    requires AllDigits(d)
    requires rest == [] || !IsDigit(rest[0])
    ensures RunEnd(d + rest, 0, IsDigit) == |d|
  {
    var dr := d + rest;
    assert forall i :: 0 <= i < |d| ==> IsDigit(dr[i]) by {
      forall i | 0 <= i < |d| ensures IsDigit(dr[i]) { assert dr[i] == d[i]; }
    }
    assert |d| == |dr| || dr[|d|] == rest[0];
    RunEndAt(dr, 0, |d|, IsDigit);
  }

  /** A numeral followed by anything that is not a digit parses to its value. */
  lemma ParseIntDecimalPrefix(w: seq<char>, n: nat, rest: seq<char>)
    requires AllSpace(w)
    requires rest == [] || !IsDigit(rest[0])
    ensures ParseInt(w + Decimal(n) + rest) == Some(n)
  {
    var d := Decimal(n);
    var dr := d + rest;
    assert w + d + rest == w + dr;
    assert dr[0] == d[0];
    TrimStartAfterSpace(w, dr);
    DigitRun(d, rest);
    assert dr[..|d|] == d;
    NumeralOfDecimal(n);
  }

  /** Leading white space is exactly what `trimStart` removes. */
  lemma TrimStartAfterSpace(w: seq<char>, x: seq<char>)
    requires AllSpace(w)
    requires x == [] || !IsSpace(x[0])
    ensures TrimStart(w + x) == x
  {
    var wx := w + x;
    assert forall i :: 0 <= i < |w| ==> IsSpace(wx[i]);
    assert |w| == |wx| || wx[|w|] == x[0];
    RunEndAt(wx, 0, |w|, IsSpace);
  }

  /** The numeral of `n` reads back as `n`. */
  lemma ParseIntDecimal(n: nat)
    ensures ParseInt(Decimal(n)) == Some(n)
  {
    ParseIntDecimalPrefix([], n, []);
    assert [] + Decimal(n) + [] == Decimal(n);
  }
}
