/** Text primitives the publication scripts rely on: substring search (Python's
    `in` and the first step of a regular-expression scan), ASCII integer parsing
    and printing (Python's `int(s)` and `str(n)`), `sep.join(parts)` and the
    whitespace test behind `str.strip()`. */
module Text {

  datatype Option<T> = None | Some(value: T)

  /** `pat` occurs in `s` starting at index `i`. */
  predicate OccursAt(s: string, pat: string, i: nat)
  {
    i + |pat| <= |s| && s[i..i + |pat|] == pat
  }

  /** Python's `pat in s`. */
  predicate Contains(s: string, pat: string)
  {
    exists i: nat | i <= |s| :: OccursAt(s, pat, i)
  }

  /** The first index where `pat` occurs in `s`. */
  function FirstOccurrence(s: string, pat: string): (r: Option<nat>)
    ensures r.Some? ==> OccursAt(s, pat, r.value)
    ensures r.Some? ==> forall k: nat :: k < r.value ==> !OccursAt(s, pat, k)
    ensures r.None? ==> forall k: nat :: !OccursAt(s, pat, k)
  {
    if |s| < |pat| then None
    else if s[..|pat|] == pat then Some(0)
    else
      DropOccurs(s, pat, 1);
      match FirstOccurrence(s[1..], pat)
      case None => None
      case Some(i) => Some(i + 1)
  }

  /** Occurrences in a suffix are occurrences in the whole text, shifted. */
  lemma DropOccurs(s: string, pat: string, from: nat)
    requires from <= |s|
    ensures forall k: nat :: from <= k ==> (OccursAt(s, pat, k) <==> OccursAt(s[from..], pat, k - from))
  {
    forall k: nat | from <= k
      ensures OccursAt(s, pat, k) <==> OccursAt(s[from..], pat, k - from)
    {
      if k + |pat| <= |s| {
        assert s[from..][k - from..k - from + |pat|] == s[k..k + |pat|];
      }
    }
  }

  /** The first index at or after `from` where `pat` occurs in `s`. */
  function Find(s: string, pat: string, from: nat): (r: Option<nat>)
    ensures r.Some? ==> from <= r.value && OccursAt(s, pat, r.value)
    ensures r.Some? ==> forall k: nat :: from <= k < r.value ==> !OccursAt(s, pat, k)
    ensures r.None? ==> forall k: nat :: from <= k ==> !OccursAt(s, pat, k)
  {
    if from > |s| then None
    else
      DropOccurs(s, pat, from);
      match FirstOccurrence(s[from..], pat)
      case None => None
      case Some(i) => Some(from + i)
  }

  /** The ensures of Find determine it: the first occurrence is the answer. */
  lemma FindFirst(s: string, pat: string, from: nat, i: nat)
    requires from <= i && OccursAt(s, pat, i)
    requires forall k: nat :: from <= k < i ==> !OccursAt(s, pat, k)
    ensures Find(s, pat, from) == Some(i)
  {
  }

  /** Searching from the start finds something exactly when `pat in s`. */
  lemma FindContains(s: string, pat: string)
    ensures Find(s, pat, 0).Some? <==> Contains(s, pat)
  {
    if Find(s, pat, 0).Some? {
      assert OccursAt(s, pat, Find(s, pat, 0).value);
    }
  }

  /** Concatenation is associative; stated once so that proofs about long
      literal texts need not re-derive it element by element. */
  lemma AppendAssoc(a: string, b: string, c: string)
    ensures (a + b) + c == a + (b + c)
  {
  }

  /** A prefix of a text, split at an inner index. */
  lemma TakeSplit(t: string, i: nat, n: nat)
    requires i <= n <= |t|
    ensures t[..n] == t[..i] + t[i..n]
  {
  }

  /** A prefix of `a + b + rest` that ends inside `b`. */
  lemma TakeOfCat(a: string, b: string, rest: string, m: nat)
    requires m <= |b|
    ensures (a + b + rest)[..|a| + m] == a + b[..m]
  {
    assert (a + b + rest)[..|a| + m] == (a + b)[..|a| + m];
  }

  /** Occurrences that end within a common prefix are shared. */
  lemma OccursInCommonPrefix(s: string, t: string, pat: string, n: nat, k: nat)
    requires n <= |s| && n <= |t| && s[..n] == t[..n] && k + |pat| <= n
    ensures OccursAt(s, pat, k) <==> OccursAt(t, pat, k)
  {
    assert s[k..k + |pat|] == s[..n][k..k + |pat|];
    assert t[k..k + |pat|] == t[..n][k..k + |pat|];
  }

  /** A search whose answer lies within a common prefix gives the same
      answer in both texts. */
  lemma FindInCommonPrefix(s: string, t: string, pat: string, from: nat, n: nat, i: nat)
    requires n <= |s| && n <= |t| && s[..n] == t[..n]
    requires Find(s, pat, from) == Some(i) && i + |pat| <= n
    ensures Find(t, pat, from) == Some(i)
  {
    forall k: nat | from <= k <= i
      ensures OccursAt(t, pat, k) == OccursAt(s, pat, k)
    {
      OccursInCommonPrefix(s, t, pat, n, k);
    }
    FindFirst(t, pat, from, i);
  }

  /** Occurrences inside the middle part of `p + c + rest` are those of `c`,
      shifted by `|p|`. */
  lemma OccursInMiddle(p: string, c: string, rest: string, pat: string, q: nat, k: nat)
    requires q + |pat| <= |c| && k == |p| + q
    ensures OccursAt(p + c + rest, pat, k) <==> OccursAt(c, pat, q)
  {
    assert (p + c + rest)[k..k + |pat|] == c[q..q + |pat|];
  }

  // ---------------------------------------------------------------------------
  // Digits and integers

  predicate IsDigit(c: char)
  {
    '0' <= c <= '9'
  }

  predicate AllDigits(s: string)
  {
    forall i :: 0 <= i < |s| ==> IsDigit(s[i])
  }

  function DigitValue(c: char): (d: nat)
    requires IsDigit(c)
    ensures d < 10
  {
    c as int - '0' as int
  }

  function DigitChar(d: nat): (c: char)
    requires d < 10
    ensures IsDigit(c) && DigitValue(c) == d
  {
    ('0' as int + d) as char
  }

  /** The value of a string of ASCII digits read in base 10. */
  function DigitsValue(s: string): nat
    requires AllDigits(s)
  {
    if s == [] then 0 else 10 * DigitsValue(s[..|s| - 1]) + DigitValue(s[|s| - 1])
  }

  /** Python's `str(n)` for a non-negative `n`: shortest base-10 spelling. */
  function NatToDecimal(n: nat): (r: string)
    ensures |r| > 0 && AllDigits(r)
    ensures |r| == 1 || r[0] != '0'
    ensures DigitsValue(r) == n
  {
    if n < 10 then [DigitChar(n)]
    else
      var init := NatToDecimal(n / 10);
      var r := init + [DigitChar(n % 10)];
      assert r[..|r| - 1] == init;
      r
  }

  function Pow10(n: nat): nat
  {
    if n == 0 then 1 else 10 * Pow10(n - 1)
  }

  lemma Pow10Mono(a: nat, b: nat)
    requires a <= b
    ensures Pow10(a) <= Pow10(b)
  {
    if a < b {
      Pow10Mono(a, b - 1);
    }
  }

  /** An `n`-digit string is below `10^n`. */
  lemma DigitsBelowPow(d: string)
    requires AllDigits(d)
    ensures DigitsValue(d) < Pow10(|d|)
  {
    if d != [] {
      DigitsBelowPow(d[..|d| - 1]);
    }
  }

  /** An `n`-digit string without a leading zero is at least `10^(n-1)`. */
  lemma DigitsAtLeastPow(d: string)
    requires |d| > 0 && AllDigits(d) && d[0] != '0'
    ensures DigitsValue(d) >= Pow10(|d| - 1)
  {
    if |d| > 1 {
      assert d[..|d| - 1][0] == d[0];
      DigitsAtLeastPow(d[..|d| - 1]);
    }
  }

  /** The value of four digits, place by place. */
  lemma FourDigits(w: string)
    requires |w| == 4 && AllDigits(w)
    ensures DigitsValue(w) == 1000 * DigitValue(w[0]) + 100 * DigitValue(w[1])
                              + 10 * DigitValue(w[2]) + DigitValue(w[3])
  {
    var w3 := w[..3];
    var w2 := w3[..2];
    var w1 := w2[..1];
    assert w[..|w| - 1] == w3 && w3[..|w3| - 1] == w2 && w2[..|w2| - 1] == w1;
    assert w1[..0] == [];
    assert DigitsValue(w1) == DigitValue(w[0]);
    assert DigitsValue(w2) == 10 * DigitValue(w[0]) + DigitValue(w[1]);
    assert DigitsValue(w3) == 10 * DigitsValue(w2) + DigitValue(w[2]);
  }

  /** The integer texts `ParseInt` accepts: one or more ASCII digits, with an
      optional `+` or `-` in front. */
  predicate IntText(s: string)
  {
    || (|s| > 0 && AllDigits(s))
    || (|s| > 1 && (s[0] == '+' || s[0] == '-') && AllDigits(s[1..]))
  }

  /** Python's `int(s)`, restricted to an optional sign followed by one or more
      ASCII digits; `None` stands for the `ValueError` it raises otherwise. */
  function ParseInt(s: string): (r: Option<int>)
    ensures r.Some? <==> IntText(s)
    ensures r.Some? ==> exists i :: 0 <= i < |s| && IsDigit(s[i])
    ensures r.Some? && r.value < 0 ==> s[0] == '-'
    ensures |s| > 0 && AllDigits(s) ==> r == Some(DigitsValue(s))
  {
    if |s| > 0 && (s[0] == '+' || s[0] == '-') then
      if |s| > 1 && AllDigits(s[1..]) then
        assert IsDigit(s[1..][0]);
        var v: int := DigitsValue(s[1..]);
        Some(if s[0] == '-' then -v else v)
      else None
    else if |s| > 0 && AllDigits(s) then
      assert IsDigit(s[0]);
      Some(DigitsValue(s))
    else None
  }

  /** A character that is neither a digit nor a leading sign makes `int()`
      raise. */
  lemma ParseIntStray(s: string, k: nat)
    requires k < |s| && !IsDigit(s[k])
    requires k == 0 ==> s[k] != '+' && s[k] != '-'
    ensures ParseInt(s) == None
  {
    if k > 0 {
      assert s[1..][k - 1] == s[k];
    }
  }

  /** `int(str(n)) == n`, also with a leading minus sign. */
  lemma ParseIntOfDecimal(n: nat)
    ensures ParseInt(NatToDecimal(n)) == Some(n)
    ensures ParseInt("-" + NatToDecimal(n)) == Some(-(n as int))
  {
    var d := NatToDecimal(n);
    assert ("-" + d)[1..] == d;
  }

  // ---------------------------------------------------------------------------
  // Joining and splitting

  /** Python's `sep.join(parts)`. */
  function Join(parts: seq<string>, sep: string): string
  {
    if |parts| == 0 then ""
    else if |parts| == 1 then parts[0]
    else parts[0] + sep + Join(parts[1..], sep)
  }

  /** The text after a separator found at index `i`. */
  function Behind(s: string, sep: string, i: nat): (r: string)
    requires i + |sep| <= |s|
    ensures |r| == |s| - i - |sep|
  {
    s[i + |sep|..]
  }

  /** Python's `s.split(sep)` for a non-empty separator. */
  function Split(s: string, sep: string): (r: seq<string>)
    requires |sep| > 0
    decreases |s|
    ensures |r| > 0
  {
    match Find(s, sep, 0)
    case None => [s]
    case Some(i) => [s[..i]] + Split(Behind(s, sep, i), sep)
  }

  /** A text without the separator's first character splits into itself. */
  lemma SplitNoSeparator(p: string, sep: string)
    requires |sep| > 0 && sep[0] !in p
    ensures Split(p, sep) == [p]
  {
    forall k: nat | k + |sep| <= |p|
      ensures !OccursAt(p, sep, k)
    {
      assert p[k..k + |sep|][0] == p[k];
    }
    assert Find(p, sep, 0) == None;
  }

  /** The first separator after such a text is where the split cuts. */
  lemma SplitFirstPart(p: string, sep: string, rest: string)
    requires |sep| > 0 && sep[0] !in p
    ensures Split(p + sep + rest, sep) == [p] + Split(rest, sep)
  {
    var s := p + sep + rest;
    forall k: nat | k < |p|
      ensures !OccursAt(s, sep, k)
    {
      assert s[k..k + |sep|][0] == p[k];
    }
    assert s[|p|..|p| + |sep|] == sep;
    FindFirst(s, sep, 0, |p|);
    assert s[..|p|] == p;
    assert Behind(s, sep, |p|) == rest;
  }

  /** Splitting undoes joining when no part contains the separator's first
      character. */
  lemma {:induction false} SplitJoin(parts: seq<string>, sep: string)
    requires |parts| > 0 && |sep| > 0
    requires forall k :: 0 <= k < |parts| ==> sep[0] !in parts[k]
    ensures Split(Join(parts, sep), sep) == parts
  {
    if |parts| == 1 {
      SplitNoSeparator(parts[0], sep);
    } else {
      SplitFirstPart(parts[0], sep, Join(parts[1..], sep));
      SplitJoin(parts[1..], sep);
    }
  }

  // ---------------------------------------------------------------------------
  // Whitespace

  /** Python's `str.isspace()` for one character. */
  predicate IsSpace(c: char)
  {
    c == ' ' || c == '\t' || c == '\n' || c == '\r' ||
    c == '\U{000B}' || c == '\U{000C}' ||
    ('\U{001C}' <= c <= '\U{001F}') ||
    c == '\U{0085}' || c == '\U{00A0}' || c == '\U{1680}' ||
    ('\U{2000}' <= c <= '\U{200A}') ||
    c == '\U{2028}' || c == '\U{2029}' || c == '\U{202F}' ||
    c == '\U{205F}' || c == '\U{3000}'
  }

  /** `s.strip()` is empty: every character is whitespace. */
  predicate Blank(s: string)
  {
    forall i :: 0 <= i < |s| ==> IsSpace(s[i])
  }
}
