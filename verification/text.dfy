/** Character classes, runs of characters, decimal numerals, whitespace trimming
    and the subsequence relation shared by the score parser and the name
    normalisers.  Python's `\d` and `\s` are modelled on their ASCII members. */
module Text {

  /** `\d` on ASCII. */
  predicate IsDigit(c: char) { '0' <= c <= '9' }

  /** `\s` on ASCII: space, tab, line feed, vertical tab, form feed, carriage
      return, and the four separators `\x1c` to `\x1f`, which Python counts
      as whitespace in a `str`. */
  predicate IsSpace(c: char) {
    c == ' ' || '\t' <= c <= '\r' || '\U{001C}' <= c <= '\U{001F}'
  }

  /** `[A-Z]`. */
  predicate IsUpper(c: char) { 'A' <= c <= 'Z' }

  /** The character classes a regex quantifier in the source runs over. */
  datatype Class = Digit | Space | Upper

  predicate InClass(c: char, cls: Class) {
    match cls
    case Digit => IsDigit(c)
    case Space => IsSpace(c)
    case Upper => IsUpper(c)
  }

  /** Where a greedy `cls*` starting at `i` stops: the end of the longest run
      of `cls` characters beginning at `i`. */
  function RunEnd(s: string, i: nat, cls: Class): (j: nat)
    requires i <= |s|
    ensures i <= j <= |s|
    ensures forall k :: i <= k < j ==> InClass(s[k], cls)
    ensures j == |s| || !InClass(s[j], cls)
    decreases |s| - i
  {
    if i < |s| && InClass(s[i], cls) then RunEnd(s, i + 1, cls) else i
  }

  /** A run that is known to stop at `j` is the run `RunEnd` finds. */
  lemma RunEndIs(s: string, i: nat, j: nat, cls: Class)
    requires i <= j <= |s|
    requires forall k :: i <= k < j ==> InClass(s[k], cls)
    requires j == |s| || !InClass(s[j], cls)
    ensures RunEnd(s, i, cls) == j
  {
  }

  function DigitValue(c: char): (d: nat)
    ensures d < 10
  {
    if IsDigit(c) then (c as int) - ('0' as int) else 0
  }

  /** `10 ** n`. */
  function Pow10(n: nat): (r: nat)
    ensures r >= 1
  {
    if n == 0 then 1 else 10 * Pow10(n - 1)
  }

  /** Python's `int(ds)` on a string of ASCII digits (leading zeros allowed):
      a numeral of `n` digits stands for a number below `10 ** n`. */
  function DecimalValue(ds: string): (v: nat)
    ensures v < Pow10(|ds|)
    decreases |ds|
  {
    if |ds| == 0 then 0 else 10 * DecimalValue(ds[..|ds| - 1]) + DigitValue(ds[|ds| - 1])
  }

  /** `int()` ignores a leading zero: `int("05") == int("5")`. */
  lemma {:induction false} LeadingZeroIgnored(ds: string)
    ensures DecimalValue("0" + ds) == DecimalValue(ds)
    decreases |ds|
  {
    var z := "0" + ds;
    if |ds| == 0 {
      assert z[..0] == [];
    } else {
      assert z[..|z| - 1] == "0" + ds[..|ds| - 1];
      assert z[|z| - 1] == ds[|ds| - 1];
      LeadingZeroIgnored(ds[..|ds| - 1]);
    }
  }

  /** The shortest decimal numeral of `n`, as `str(n)` writes it. */
  function Decimal(n: nat): (ds: string)
    ensures |ds| > 0
    ensures forall k :: 0 <= k < |ds| ==> IsDigit(ds[k])
    decreases n
  {
    if n < 10 then [(('0' as int) + n) as char]
    else Decimal(n / 10) + [(('0' as int) + n % 10) as char]
  }

  /** Reading back a written numeral gives the number. */
  lemma {:induction false} DecimalRoundTrip(n: nat)
    ensures DecimalValue(Decimal(n)) == n
    decreases n
  {
    var ds := Decimal(n);
    if n >= 10 {
      DecimalRoundTrip(n / 10);
      assert ds[..|ds| - 1] == Decimal(n / 10);
    }
  }

  /** Every character of `s` is whitespace. */
  ghost predicate AllSpaces(s: string) {
    forall j :: 0 <= j < |s| ==> IsSpace(s[j])
  }

  /** `re.sub(r"\s+$", "", s)`: the longest prefix that does not end in whitespace. */
  function StripTrailing(s: string): (r: string)
    ensures |r| <= |s| && r == s[..|r|]
    ensures |r| == 0 || !IsSpace(r[|r| - 1])
    ensures forall k :: |r| <= k < |s| ==> IsSpace(s[k])
    decreases |s|
  {
    if |s| > 0 && IsSpace(s[|s| - 1]) then StripTrailing(s[..|s| - 1]) else s
  }

  /** Whitespace appended to a string is stripped with the string's own. */
  lemma {:induction false} StripTrailingSpaces(a: string, ws: string)
    requires AllSpaces(ws)
    ensures StripTrailing(a + ws) == StripTrailing(a)
    decreases |ws|
  {
    if |ws| == 0 {
      assert a + ws == a;
    } else {
      var s := a + ws;
      assert s[..|s| - 1] == a + ws[..|ws| - 1];
      StripTrailingSpaces(a, ws[..|ws| - 1]);
    }
  }

  /** `re.sub(r"^\s+", "", s)`: the longest suffix that does not start with whitespace. */
  function StripLeading(s: string): (r: string)
    ensures |r| <= |s| && r == s[|s| - |r|..]
    ensures |r| == 0 || !IsSpace(r[0])
    ensures forall k :: 0 <= k < |s| - |r| ==> IsSpace(s[k])
    decreases |s|
  {
    if |s| > 0 && IsSpace(s[0]) then StripLeading(s[1..]) else s
  }

  /** `a` can be obtained from `b` by deleting characters. */
  ghost predicate IsSubsequence(a: string, b: string)
    decreases |b|
  {
    |a| == 0 ||
    (|b| > 0 && ((a[0] == b[0] && IsSubsequence(a[1..], b[1..])) || IsSubsequence(a, b[1..])))
  }

  lemma {:induction false} SubsequenceReflexive(s: string)
    ensures IsSubsequence(s, s)
    decreases |s|
  {
    if |s| > 0 {
      SubsequenceReflexive(s[1..]);
    }
  }

  lemma {:induction false} SubsequenceTransitive(a: string, b: string, c: string)
    requires IsSubsequence(a, b) && IsSubsequence(b, c)
    ensures IsSubsequence(a, c)
    decreases |a| + |b| + |c|
  {
    if |a| > 0 {
      if IsSubsequence(b, c[1..]) {
        SubsequenceTransitive(a, b, c[1..]);
      } else if IsSubsequence(a, b[1..]) {
        SubsequenceTransitive(a, b[1..], c[1..]);
      } else {
        SubsequenceTransitive(a[1..], b[1..], c[1..]);
      }
    }
  }

  /** Deleting a prefix of `b` keeps every subsequence of what is left a subsequence of `b`. */
  lemma {:induction false} SubsequenceOfSuffix(a: string, b: string, n: nat)
    requires n <= |b| && IsSubsequence(a, b[n..])
    ensures IsSubsequence(a, b)
    decreases n
  {
    if n > 0 {
      assert b[1..][n - 1..] == b[n..];
      SubsequenceOfSuffix(a, b[1..], n - 1);
    }
  }

  lemma {:induction false} PrefixIsSubsequence(s: string, n: nat)
    requires n <= |s|
    ensures IsSubsequence(s[..n], s)
    decreases n
  {
    if n > 0 {
      assert s[..n][1..] == s[1..][..n - 1];
      PrefixIsSubsequence(s[1..], n - 1);
    }
  }

  lemma SuffixIsSubsequence(s: string, n: nat)
    requires n <= |s|
    ensures IsSubsequence(s[n..], s)
  {
    SubsequenceReflexive(s[n..]);
    SubsequenceOfSuffix(s[n..], s, n);
  }
}
