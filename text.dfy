/** String helpers with the meaning Python gives them: `str.isspace`, `str.strip`,
    `str.startswith`, `str.splitlines` (on '\n' only), code-point string ordering
    and decimal formatting of a non-negative integer. */
module Text {

  datatype Option<T> = None | Some(value: T)

  /** Python's `str.isspace` for one character: the characters of Unicode
      category Zs and the bidirectional classes WS, B and S. */
  predicate IsSpace(c: char) {
    var n := c as int;
    (9 <= n <= 13) || (28 <= n <= 32) || n == 0x85 || n == 0xA0 || n == 0x1680
    || (0x2000 <= n <= 0x200A) || n == 0x2028 || n == 0x2029 || n == 0x202F
    || n == 0x205F || n == 0x3000
  }

  predicate AllSpace(s: string) {
    forall i :: 0 <= i < |s| ==> IsSpace(s[i])
  }

  /** A string with no white space at either end. */
  predicate Stripped(s: string) {
    s == [] || (!IsSpace(s[0]) && !IsSpace(s[|s| - 1]))
  }

  /** `s.lstrip()`: drops the leading white space, and only that. */
  function TrimStart(s: string): (r: string)
    ensures |r| <= |s| && r == s[|s| - |r|..]
    ensures AllSpace(s[..|s| - |r|])
    ensures r == [] || !IsSpace(r[0])
  {
    if s != [] && IsSpace(s[0]) then TrimStart(s[1..]) else s
  }

  /** `s.rstrip()`: drops the trailing white space, and only that. */
  function TrimEnd(s: string): (r: string)
    ensures |r| <= |s| && r == s[..|r|]
    ensures AllSpace(s[|r|..])
    ensures r == [] || !IsSpace(r[|r| - 1])
  {
    if s != [] && IsSpace(s[|s| - 1]) then TrimEnd(s[..|s| - 1]) else s
  }

  /** `s.strip()`: empty exactly when `s` is blank, and never starts or ends in white space. */
  function Strip(s: string): (r: string)
    ensures r == [] <==> AllSpace(s)
    ensures Stripped(r)
    ensures |r| <= |s|
  {
    var t := TrimStart(s);
    var r := TrimEnd(t);
    assert t == [] ==> AllSpace(s) by {
      if t == [] { assert s[..|s| - |t|] == s; }
    }
    r
  }

  /** Cutting any blank prefix and blank suffix off `s` so that what remains
      is stripped gives exactly `s.strip()`: `strip` removes the white space at
      both ends and nothing else. */
  lemma StripBetweenBlanks(s: string, i: nat, j: nat)
    requires i <= j <= |s|
    requires AllSpace(s[..i]) && AllSpace(s[j..]) && Stripped(s[i..j])
    ensures Strip(s) == s[i..j]
  {
    if i == j {
      BlankHalves(s, i);
    } else {
      TrimsGiveSlice(s, i, j);
      StripIsTrims(s);
    }
  }

  lemma BlankHalves(s: string, i: nat)
    requires i <= |s| && AllSpace(s[..i]) && AllSpace(s[i..])
    ensures AllSpace(s)
  {
    forall k | 0 <= k < |s| ensures IsSpace(s[k]) {
      if k < i {
        assert s[..i][k] == s[k];
      } else {
        assert s[i..][k - i] == s[k];
      }
    }
  }

  lemma TrimsGiveSlice(s: string, i: nat, j: nat)
    requires i < j <= |s|
    requires AllSpace(s[..i]) && AllSpace(s[j..]) && Stripped(s[i..j])
    ensures TrimEnd(TrimStart(s)) == s[i..j]
  {
    assert s[i..j][0] == s[i];
    TrimStartAt(s, i);
    TrimEndOfSlice(s, i, j);
  }

  lemma TrimEndOfSlice(s: string, i: nat, j: nat)
    requires i < j <= |s|
    requires AllSpace(s[j..]) && Stripped(s[i..j])
    ensures TrimEnd(s[i..]) == s[i..j]
  {
    var t := s[i..];
    assert t[j - i..] == s[j..];
    assert t[j - i - 1] == s[i..j][j - i - 1];
    TrimEndAt(t, j - i);
    assert t[..j - i] == s[i..j];
  }

  /** `lstrip` stops at the first non-blank character. */
  lemma TrimStartAt(s: string, i: nat)
    requires i < |s| && AllSpace(s[..i]) && !IsSpace(s[i])
    ensures TrimStart(s) == s[i..]
  {
    var r := TrimStart(s);
    FirstNonBlank(s, i, |s| - |r|);
  }

  /** `rstrip` stops at the last non-blank character. */
  lemma TrimEndAt(t: string, n: nat)
    requires 0 < n <= |t| && AllSpace(t[n..]) && !IsSpace(t[n - 1])
    ensures TrimEnd(t) == t[..n]
  {
    var r := TrimEnd(t);
    LastNonBlank(t, n, |r|);
  }

  /** Two prefixes of blanks that each end right before a non-blank character end at the same place. */
  lemma FirstNonBlank(s: string, i: nat, a: nat)
    requires i < |s| && AllSpace(s[..i]) && !IsSpace(s[i])
    requires a <= |s| && AllSpace(s[..a]) && (a == |s| || !IsSpace(s[a]))
    ensures a == i
  {
    assert forall k :: 0 <= k < i ==> IsSpace(s[k]) by {
      forall k | 0 <= k < i ensures IsSpace(s[k]) { assert s[..i][k] == s[k]; }
    }
    assert forall k :: 0 <= k < a ==> IsSpace(s[k]) by {
      forall k | 0 <= k < a ensures IsSpace(s[k]) { assert s[..a][k] == s[k]; }
    }
  }

  /** Two suffixes of blanks that each begin right after a non-blank character begin at the same place. */
  lemma LastNonBlank(t: string, n: nat, m: nat)
    requires 0 < n <= |t| && AllSpace(t[n..]) && !IsSpace(t[n - 1])
    requires m <= |t| && AllSpace(t[m..]) && (m == 0 || !IsSpace(t[m - 1]))
    ensures m == n
  {
    assert forall k :: n <= k < |t| ==> IsSpace(t[k]) by {
      forall k | n <= k < |t| ensures IsSpace(t[k]) { assert t[n..][k - n] == t[k]; }
    }
    assert forall k :: m <= k < |t| ==> IsSpace(t[k]) by {
      forall k | m <= k < |t| ensures IsSpace(t[k]) { assert t[m..][k - m] == t[k]; }
    }
  }

  lemma StripIsTrims(s: string)
    ensures Strip(s) == TrimEnd(TrimStart(s))
  {
  }

  /** Stripping twice is stripping once. */
  lemma {:induction false} StripIdempotent(s: string)
    ensures Strip(Strip(s)) == Strip(s)
  {
    StrippedIsFixed(Strip(s));
  }

  lemma StrippedIsFixed(s: string)
    requires Stripped(s)
    ensures Strip(s) == s
  {
    assert TrimStart(s) == s;
    assert TrimEnd(s) == s;
  }

  /** Python's `s.startswith(p)`. */
  predicate StartsWith(s: string, p: string) {
    |p| <= |s| && s[..|p|] == p
  }

  /** The index of the first occurrence of `c` in `s` at or after `j`, if any. */
  function IndexFrom(s: string, c: char, j: nat): (r: Option<nat>)
    decreases |s| - j
    ensures r.Some? ==> j <= r.value < |s| && s[r.value] == c
    ensures r.Some? ==> forall k :: j <= k < r.value ==> s[k] != c
    ensures r.None? ==> forall k :: j <= k < |s| ==> s[k] != c
  {
    if j >= |s| then None
    else if s[j] == c then Some(j)
    else IndexFrom(s, c, j + 1)
  }

  /** An occurrence with none before it (from `j` on) is the one found. */
  lemma IndexFromFirst(s: string, c: char, j: nat, k: nat)
    requires j <= k < |s| && s[k] == c
    requires forall m :: j <= m < k ==> s[m] != c
    ensures IndexFrom(s, c, j) == Some(k)
  {
    var r := IndexFrom(s, c, j);
    assert r.Some?;
    assert !(r.value < k) && !(k < r.value);
  }

  /** `s.splitlines()`, with '\n' as the only line separator: a final newline
      does not open an empty last line, and the empty text has no lines. */
  function Lines(s: string): (r: seq<string>)
    decreases |s|
    ensures forall i, k :: 0 <= i < |r| && 0 <= k < |r[i]| ==> r[i][k] != '\n'
  {
    if s == [] then []
    else match IndexFrom(s, '\n', 0)
      case None => [s]
      case Some(k) => [s[..k]] + Lines(s[k + 1..])
  }

  /** Each line followed by a newline. */
  function Terminated(lines: seq<string>): string {
    if lines == [] then [] else lines[0] + "\n" + Terminated(lines[1..])
  }

  lemma LinesAtNewline(s: string, k: nat)
    requires IndexFrom(s, '\n', 0) == Some(k)
    ensures Lines(s) == [s[..k]] + Lines(s[k + 1..])
  {
  }

  lemma TerminatedCons(line: string, lines: seq<string>)
    ensures Terminated([line] + lines) == line + "\n" + Terminated(lines)
  {
    assert ([line] + lines)[1..] == lines;
  }

  /** The text with a newline added unless it is empty or already ends in one. */
  function WithFinalNewline(s: string): string {
    if s == [] || s[|s| - 1] == '\n' then s else s + "\n"
  }

  lemma WithFinalNewlineSplit(head: string, rest: string)
    ensures WithFinalNewline(head + "\n" + rest) == head + "\n" + WithFinalNewline(rest)
  {
    var s := head + "\n" + rest;
    if rest != [] {
      assert s[|s| - 1] == rest[|rest| - 1];
      if rest[|rest| - 1] != '\n' {
        assert s + "\n" == head + "\n" + (rest + "\n");
      }
    }
  }

  /** Splitting loses nothing but the distinction between a text with and
      without a final newline. */
  lemma {:induction false} LinesRoundTrip(s: string)
    ensures Terminated(Lines(s)) == WithFinalNewline(s)
    decreases |s|
  {
    if s != [] {
      match IndexFrom(s, '\n', 0)
      case None =>
        assert Lines(s) == [s];
        TerminatedCons(s, []);
      case Some(k) =>
        var head, rest := s[..k], s[k + 1..];
        LinesRoundTrip(rest);
        LinesAtNewline(s, k);
        TerminatedCons(head, Lines(rest));
        assert s == head + "\n" + rest;
        WithFinalNewlineSplit(head, rest);
    }
  }

  /** Python's `<` on `str`: code points compared left to right, a proper
      prefix before any extension of it. */
  predicate Less(a: string, b: string)
    decreases |a|
  {
    if a == [] then b != []
    else if b == [] then false
    else a[0] < b[0] || (a[0] == b[0] && Less(a[1..], b[1..]))
  }

  lemma {:induction false} LessIrreflexive(a: string)
    ensures !Less(a, a)
    decreases |a|
  {
    if a != [] { LessIrreflexive(a[1..]); }
  }

  lemma {:induction false} LessTransitive(a: string, b: string, c: string)
    requires Less(a, b) && Less(b, c)
    ensures Less(a, c)
    decreases |a|
  {
    if a != [] && b != [] && c != [] && a[0] == b[0] == c[0] {
      LessTransitive(a[1..], b[1..], c[1..]);
    }
  }

  lemma {:induction false} LessTotal(a: string, b: string)
    ensures a == b || Less(a, b) || Less(b, a)
    decreases |a|
  {
    if a != [] && b != [] && a[0] == b[0] {
      LessTotal(a[1..], b[1..]);
      if a[1..] == b[1..] { assert a == [a[0]] + a[1..] && b == [b[0]] + b[1..]; }
    }
  }

  predicate IsDigit(c: char) { '0' <= c <= '9' }

  /** `f"{n}"` for a non-negative integer: its decimal digits, without leading zeros. */
  function Decimal(n: nat): (r: string)
    ensures r != [] && forall i :: 0 <= i < |r| ==> IsDigit(r[i])
    ensures n > 0 ==> r[0] != '0'
  {
    var d := ['0' + (n % 10) as char];
    if n < 10 then d else Decimal(n / 10) + d
  }

  /** The number a run of decimal digits denotes, most significant first. */
  function DigitsValue(d: string): nat
    requires forall i :: 0 <= i < |d| ==> IsDigit(d[i])
  {
    if d == [] then 0
    else
      var last := d[|d| - 1];
      assert IsDigit(last);
      DigitsValue(d[..|d| - 1]) * 10 + (last as int - '0' as int)
  }

  /** The digits of `f"{n}"` denote `n`. */
  lemma {:induction false} DecimalValue(n: nat)
    ensures DigitsValue(Decimal(n)) == n
  {
    var d := ['0' + (n % 10) as char];
    if n >= 10 {
      DecimalValue(n / 10);
      var r := Decimal(n / 10) + d;
      assert r[..|r| - 1] == Decimal(n / 10);
    }
  }
}
