/** The JavaScript string built-ins the webview scripts rely on, with their
    ECMAScript behaviour written out: `indexOf`, `replace` with a string
    pattern, `split` on one character, `trim` and `Number.prototype.toString`.
    `replace` is modelled for a replacement string without `$` patterns,
    which is every replacement the scripts pass. */
module JsStrings {

  /** `p` occurs in `s` starting at index `k`. */
  predicate OccursAt(s: string, p: string, k: int) {
    0 <= k && k + |p| <= |s| && s[k..k + |p|] == p
  }

  /** No occurrence of `p` in `s` starts before index `m`. */
  predicate NoOccurrenceBefore(s: string, p: string, m: int) {
    forall k :: 0 <= k < m ==> !OccursAt(s, p, k)
  }

  /** `p` does not occur anywhere in `s`. */
  predicate NoOccurrence(s: string, p: string) {
    NoOccurrenceBefore(s, p, |s|)
  }

  predicate IsAscii(c: char) {
    c as int < 128
  }

  predicate AllAscii(s: string) {
    forall i :: 0 <= i < |s| ==> IsAscii(s[i])
  }

  lemma AllAsciiConcat(a: string, b: string)
    requires AllAscii(a) && AllAscii(b)
    ensures AllAscii(a + b)
  {
    forall i | 0 <= i < |a + b| ensures IsAscii((a + b)[i]) {
      if i >= |a| {
        assert (a + b)[i] == b[i - |a|];
      }
    }
  }

  /** `c` does not occur in `s`. */
  predicate Lacks(s: string, c: char) {
    forall i :: 0 <= i < |s| ==> s[i] != c
  }

  lemma LacksConcat(a: string, b: string, c: char)
    requires Lacks(a, c) && Lacks(b, c)
    ensures Lacks(a + b, c)
  {
    forall i | 0 <= i < |a + b| ensures (a + b)[i] != c {
      if i >= |a| {
        assert (a + b)[i] == b[i - |a|];
      }
    }
  }

  lemma DigitsAreAscii(s: string)
    requires AllDigits(s)
    ensures AllAscii(s)
  {
  }

  predicate NoAscii(s: string) {
    forall i :: 0 <= i < |s| ==> !IsAscii(s[i])
  }

  /** An occurrence inside the first part of a concatenation is one in that part. */
  lemma OccursAtPrefix(s: string, t: string, p: string, k: nat)
    requires k + |p| <= |s|
    ensures OccursAt(s + t, p, k) == OccursAt(s, p, k)
  {
    var u, v := (s + t)[k..k + |p|], s[k..k + |p|];
    forall j | 0 <= j < |p| ensures u[j] == v[j] { }
    assert u == v;
  }

  /** `s.indexOf(p, from)` for a non-empty `p`: the index where the search
      stops, or -1 (`IndexOfIsLeftmost` says which index that is). */
  function IndexOf(s: string, p: string, from: nat): (r: int)
    requires |p| > 0
    ensures r == -1 || (from <= r && r + |p| <= |s|)
    decreases |s| - from
  {
    if |s| < from + |p| then -1
    else if s[from..from + |p|] == p then from
    else IndexOf(s, p, from + 1)
  }

  /** `indexOf` finds the leftmost occurrence at or after `from`, and
      returns -1 exactly when there is none. */
  lemma {:induction false} IndexOfIsLeftmost(s: string, p: string, from: nat)
    requires |p| > 0
    ensures var r := IndexOf(s, p, from);
      (r == -1 || OccursAt(s, p, r)) &&
      forall k :: from <= k && (r == -1 || k < r) ==> !OccursAt(s, p, k)
    decreases |s| - from
  {
    if |s| >= from + |p| && s[from..from + |p|] != p {
      IndexOfIsLeftmost(s, p, from + 1);
    }
  }

  /** `s.replace(p, r)` with a string pattern: only the leftmost occurrence is
      replaced, by `rep` taken literally (a replacement without `$` patterns). */
  function ReplaceFirst(s: string, p: string, rep: string): (r: string)
    requires |p| > 0
  {
    var i := IndexOf(s, p, 0);
    if i == -1 then s else s[..i] + rep + s[i + |p|..]
  }

  /** Regrouping a concatenation of four strings. */
  lemma ConcatRegroup(a: string, b: string, c: string, d: string)
    ensures a + (b + c + d) == (a + b + c) + d
  {
  }

  /** Without an occurrence of `p`, `replace` leaves the text as it is. */
  lemma ReplaceFirstWithoutOccurrence(s: string, p: string, rep: string)
    requires |p| > 0 && NoOccurrence(s, p)
    ensures ReplaceFirst(s, p, rep) == s
  {
    IndexOfIsLeftmost(s, p, 0);
  }

  /** Replacing in text whose first occurrence of `p` sits between `a` and `b`. */
  lemma ReplaceFirstAt(a: string, b: string, p: string, rep: string)
    requires |p| > 0 && NoOccurrenceBefore(a + p + b, p, |a|)
    ensures ReplaceFirst(a + p + b, p, rep) == a + rep + b
  {
    var s := a + p + b;
    IndexOfIsLeftmost(s, p, 0);
    assert s[|a|..|a| + |p|] == p;
    assert OccursAt(s, p, |a|);
    assert s[..|a|] == a && s[|a| + |p|..] == b;
  }

  /** `s.split(sep)` for a one-character separator: never empty, and no part
      contains the separator. */
  function Split(s: string, sep: char): (parts: seq<string>)
    ensures |parts| >= 1
    ensures forall i :: 0 <= i < |parts| ==> sep !in parts[i]
    decreases |s|
  {
    if s == [] then [""]
    else
      var rest := Split(s[1..], sep);
      if s[0] == sep then [""] + rest
      else [[s[0]] + rest[0]] + rest[1..]
  }

  /** `parts.join(sep)`, the inverse of `Split`. */
  function Join(parts: seq<string>, sep: char): string
    requires |parts| >= 1
  {
    if |parts| == 1 then parts[0] else parts[0] + [sep] + Join(parts[1..], sep)
  }

  lemma {:induction false} JoinSplit(s: string, sep: char)
    ensures Join(Split(s, sep), sep) == s
    decreases |s|
  {
    if s != [] {
      var rest := Split(s[1..], sep);
      JoinSplit(s[1..], sep);
      if s[0] == sep {
        assert Split(s, sep)[1..] == rest;
      } else {
        var parts := Split(s, sep);
        assert parts[1..] == rest[1..];
        if |rest| == 1 {
          assert Join(parts, sep) == [s[0]] + rest[0];
        } else {
          assert Join(parts, sep) == [s[0]] + rest[0] + [sep] + Join(rest[1..], sep);
        }
        assert s == [s[0]] + s[1..];
      }
    }
  }

  /** Splitting text that starts with a separator-free run extends the first part. */
  lemma {:induction false} SplitPrefix(a: string, t: string, sep: char)
    requires sep !in a
    ensures Split(a + t, sep) == [a + Split(t, sep)[0]] + Split(t, sep)[1..]
    decreases |a|
  {
    var st := Split(t, sep);
    if a == [] {
      assert a + t == t && a + st[0] == st[0];
      assert st == [st[0]] + st[1..];
    } else {
      assert (a + t)[1..] == a[1..] + t;
      assert a[0] in a;
      SplitPrefix(a[1..], t, sep);
      var rest := Split(a[1..] + t, sep);
      assert rest[0] == a[1..] + st[0] && rest[1..] == st[1..];
      assert [a[0]] + (a[1..] + st[0]) == a + st[0];
    }
  }

  lemma {:induction false} SplitJoin(parts: seq<string>, sep: char)
    requires |parts| >= 1
    requires forall i :: 0 <= i < |parts| ==> sep !in parts[i]
    ensures Split(Join(parts, sep), sep) == parts
    decreases |parts|
  {
    if |parts| == 1 {
      SplitPrefix(parts[0], "", sep);
      assert parts[0] + "" == parts[0];
    } else {
      var tail := Join(parts[1..], sep);
      SplitJoin(parts[1..], sep);
      assert Join(parts, sep) == parts[0] + ([sep] + tail);
      SplitPrefix(parts[0], [sep] + tail, sep);
      assert ([sep] + tail)[1..] == tail;
      assert parts[0] + "" == parts[0];
      assert parts == [parts[0]] + parts[1..];
    }
  }

  function DigitChar(d: nat): (c: char)
    requires d < 10
    ensures '0' <= c <= '9' && (c as int) - ('0' as int) == d
  {
    (('0' as int) + d) as char
  }

  predicate AllDigits(s: string) {
    forall i :: 0 <= i < |s| ==> '0' <= s[i] <= '9'
  }

  /** `n.toString()` for a non-negative integer: decimal digits, no leading zero. */
  function DecimalString(n: nat): (r: string)
    ensures |r| >= 1 && AllDigits(r)
    ensures r[0] == '0' <==> n == 0
    decreases n
  {
    if n < 10 then [DigitChar(n)] else DecimalString(n / 10) + [DigitChar(n % 10)]
  }

  /** The value of a string of decimal digits (the reading direction of `DecimalString`). */
  function ParseDecimal(s: string): nat
    requires AllDigits(s)
    decreases |s|
  {
    if s == [] then 0
    else ParseDecimal(s[..|s| - 1]) * 10 + ((s[|s| - 1] as int) - ('0' as int))
  }

  lemma {:induction false} DecimalRoundTrip(n: nat)
    ensures ParseDecimal(DecimalString(n)) == n
    decreases n
  {
    var r := DecimalString(n);
    if n < 10 {
      assert r[..0] == [];
    } else {
      DecimalRoundTrip(n / 10);
      assert r[..|r| - 1] == DecimalString(n / 10);
    }
  }

  /** Distinct numbers print as distinct strings. */
  lemma DecimalInjective(m: nat, n: nat)
    requires m != n
    ensures DecimalString(m) != DecimalString(n)
  {
    DecimalRoundTrip(m);
    DecimalRoundTrip(n);
  }

  /** ECMAScript WhiteSpace and LineTerminator code points, which `trim` removes. */
  predicate IsJsWhitespace(c: char) {
    var n := c as int;
    n == 0x09 || n == 0x0A || n == 0x0B || n == 0x0C || n == 0x0D || n == 0x20 ||
    n == 0xA0 || n == 0x1680 || (0x2000 <= n <= 0x200A) || n == 0x2028 ||
    n == 0x2029 || n == 0x202F || n == 0x205F || n == 0x3000 || n == 0xFEFF
  }

  /** Length of the whitespace run at the start of `s`. */
  function LeadingWhitespace(s: string): (n: nat)
    ensures n <= |s|
    ensures forall i :: 0 <= i < n ==> IsJsWhitespace(s[i])
    ensures n < |s| ==> !IsJsWhitespace(s[n])
    decreases |s|
  {
    if s == [] || !IsJsWhitespace(s[0]) then 0 else 1 + LeadingWhitespace(s[1..])
  }

  /** Length of the whitespace run at the end of `s`. */
  function TrailingWhitespace(s: string): (n: nat)
    ensures n <= |s|
    ensures forall i :: |s| - n <= i < |s| ==> IsJsWhitespace(s[i])
    ensures n < |s| ==> !IsJsWhitespace(s[|s| - 1 - n])
    decreases |s|
  {
    if s == [] || !IsJsWhitespace(s[|s| - 1]) then 0
    else 1 + TrailingWhitespace(s[..|s| - 1])
  }

  /** Every character of `s[lo..hi]` is whitespace. */
  predicate WhitespaceRun(s: string, lo: nat, hi: nat)
    requires lo <= hi <= |s|
  {
    forall i :: lo <= i < hi ==> IsJsWhitespace(s[i])
  }

  /** `s.trim()`: `s` without its leading and trailing whitespace. With the
      last clause, the first determines the result: it is the slice of `s`
      between a whitespace run at each end, and it neither starts nor ends
      with whitespace. */
  function Trim(s: string): (r: string)
    ensures exists a, b ::
              0 <= a <= b <= |s| && r == s[a..b] && WhitespaceRun(s, 0, a) && WhitespaceRun(s, b, |s|)
    ensures |r| <= |s|
    ensures r != [] ==> !IsJsWhitespace(r[0]) && !IsJsWhitespace(r[|r| - 1])
  {
    var a := LeadingWhitespace(s);
    var t := s[a..];
    TrimSlice(s, a, t, TrailingWhitespace(t));
    t[..|t| - TrailingWhitespace(t)]
  }

  /** Dropping `n` trailing whitespace characters from the suffix `t` of `s`
      leaves a slice of `s` followed by whitespace only. */
  lemma TrimSlice(s: string, a: nat, t: string, n: nat)
    requires a <= |s| && t == s[a..] && n <= |t|
    requires forall i :: |t| - n <= i < |t| ==> IsJsWhitespace(t[i])
    ensures t[..|t| - n] == s[a..a + |t| - n] && WhitespaceRun(s, a + |t| - n, |s|)
  {
    forall i | a + |t| - n <= i < |s| ensures IsJsWhitespace(s[i]) {
      assert s[i] == t[i - a];
    }
  }

  /** `s.trim() !== ""` exactly when `s` holds a character that is not whitespace. */
  lemma TrimEmptyIffBlank(s: string)
    ensures Trim(s) == "" <==> forall i :: 0 <= i < |s| ==> IsJsWhitespace(s[i])
  {
    var a := LeadingWhitespace(s);
    var t := s[a..];
    if a < |s| {
      assert !IsJsWhitespace(t[0]);
      assert TrailingWhitespace(t) < |t|;
      assert Trim(s) != "";
    }
  }

  /** The concatenation of a sequence of strings. */
  function Flatten(parts: seq<string>): string
    decreases |parts|
  {
    if |parts| == 0 then "" else Flatten(parts[..|parts| - 1]) + parts[|parts| - 1]
  }

  lemma FlattenThree(a: string, b: string, c: string)
    ensures Flatten([a, b, c]) == a + b + c
  {
    assert [a, b, c][..2] == [a, b] && [a, b][..1] == [a] && [a][..0] == [];
    assert Flatten([a]) == a;
    assert Flatten([a, b]) == a + b;
  }

  lemma FlattenSnoc(parts: seq<string>, last: string)
    ensures Flatten(parts + [last]) == Flatten(parts) + last
  {
    assert (parts + [last])[..|parts|] == parts;
  }

  /** Concatenating from the front gives the same string. */
  lemma {:induction false} FlattenFront(parts: seq<string>)
    requires |parts| > 0
    ensures Flatten(parts) == parts[0] + Flatten(parts[1..])
    decreases |parts|
  {
    var n := |parts| - 1;
    if n > 0 {
      FlattenFront(parts[..n]);
      assert parts[..n][1..] == parts[1..][..n - 1];
    } else {
      assert parts[..0] == [] && parts[1..] == [];
    }
  }
}
