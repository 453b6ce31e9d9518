/** Values and string helpers shared by the client and server models:
    an Option type, the lexicographic order the code uses on ISO dates,
    JavaScript's String.prototype.trim, split/join on one separator and
    decimal printing of natural numbers. */
module Common {

  datatype Option<T> = None | Some(value: T)

  /** Elements pairwise different. */
  ghost predicate Distinct<T>(s: seq<T>) {
    forall i, j :: 0 <= i < j < |s| ==> s[i] != s[j]
  }

  // ---------------------------------------------------------------------
  // Lexicographic order on strings (code-unit order). ISO `YYYY-MM-DD`
  // dates are compared this way by `<`, by `localeCompare` and, for
  // well-formed dates, by `new Date(a) - new Date(b)`.
  // ---------------------------------------------------------------------

  predicate LexLe(a: string, b: string) {
    |a| == 0 || (|b| > 0 && (a[0] < b[0] || (a[0] == b[0] && LexLe(a[1..], b[1..]))))
  }

  /** JavaScript's `a < b` on strings. */
  predicate LexLt(a: string, b: string) {
    !LexLe(b, a)
  }

  lemma {:induction false} LexLeRefl(a: string)
    ensures LexLe(a, a)
  {
    if |a| > 0 {
      LexLeRefl(a[1..]);
    }
  }

  lemma {:induction false} LexLeTotal(a: string, b: string)
    ensures LexLe(a, b) || LexLe(b, a)
  {
    if |a| > 0 && |b| > 0 && a[0] == b[0] {
      LexLeTotal(a[1..], b[1..]);
    }
  }

  lemma {:induction false} LexLeTrans(a: string, b: string, c: string)
    requires LexLe(a, b) && LexLe(b, c)
    ensures LexLe(a, c)
  {
    if |a| > 0 && |b| > 0 && |c| > 0 && a[0] == b[0] == c[0] {
      LexLeTrans(a[1..], b[1..], c[1..]);
    }
  }

  lemma {:induction false} LexLeAntisym(a: string, b: string)
    requires LexLe(a, b) && LexLe(b, a)
    ensures a == b
  {
    if |a| > 0 && |b| > 0 {
      LexLeAntisym(a[1..], b[1..]);
      assert a == [a[0]] + a[1..] && b == [b[0]] + b[1..];
    }
  }

  /** `a < b` is the strict part of the order. */
  lemma LexLtIsStrict(a: string, b: string)
    ensures LexLt(a, b) <==> LexLe(a, b) && a != b
  {
    LexLeTotal(a, b);
    LexLeRefl(a);
    if LexLe(a, b) && LexLe(b, a) {
      LexLeAntisym(a, b);
    }
  }

  /** The earlier of two dates, as `if (d < shown) shown = d` computes it. */
  function EarlierDate(base: string, d: string): (r: string)
    ensures LexLe(r, base) && LexLe(r, d)
    ensures r == base || r == d
  {
    LexLeTotal(base, d);
    LexLeRefl(base);
    LexLeRefl(d);
    if LexLt(d, base) then d else base
  }

  // ---------------------------------------------------------------------
  // String.prototype.trim: strips WhiteSpace and LineTerminator characters
  // (ECMAScript sections 12.2 and 12.3) from both ends.
  // ---------------------------------------------------------------------

  predicate IsSpace(c: char) {
    || c == ' ' || c == '\t' || c == '\n' || c == '\r'
    || c == '\U{000B}' || c == '\U{000C}' || c == '\U{00A0}' || c == '\U{FEFF}'
    || c == '\U{1680}' || ('\U{2000}' <= c <= '\U{200A}')
    || c == '\U{2028}' || c == '\U{2029}' || c == '\U{202F}' || c == '\U{205F}'
    || c == '\U{3000}'
  }

  ghost predicate AllSpace(s: string) {
    forall k :: 0 <= k < |s| ==> IsSpace(s[k])
  }

  /** Number of white-space characters at the front of `s`. */
  function LeadingSpace(s: string): (i: nat)
    ensures i <= |s|
  {
    if |s| == 0 || !IsSpace(s[0]) then 0 else 1 + LeadingSpace(s[1..])
  }

  lemma {:induction false} LeadingSpaceSpec(s: string)
    ensures var i := LeadingSpace(s);
      AllSpace(s[..i]) && (i == |s| || !IsSpace(s[i]))
  {
    if |s| > 0 && IsSpace(s[0]) {
      LeadingSpaceSpec(s[1..]);
      var i := LeadingSpace(s);
      assert forall k :: 0 < k < i ==> s[k] == s[1..][..i - 1][k - 1];
    }
  }

  /** Length of `s` without the white space at its end. */
  function KeptLength(s: string): (j: nat)
    ensures j <= |s|
  {
    if |s| == 0 || !IsSpace(s[|s| - 1]) then |s| else KeptLength(s[..|s| - 1])
  }

  lemma {:induction false} KeptLengthSpec(s: string)
    ensures var j := KeptLength(s);
      AllSpace(s[j..]) && (j == 0 || !IsSpace(s[j - 1]))
  {
    if |s| > 0 && IsSpace(s[|s| - 1]) {
      var p := s[..|s| - 1];
      KeptLengthSpec(p);
      var j := KeptLength(p);
      assert forall k :: j <= k < |s| - 1 ==> s[k] == p[j..][k - j];
    }
  }

  /** JavaScript `s.trim()`: the longest slice of `s` without white space at
      either end, everything cut off being white space. */
  function Trim(s: string): string {
    var i := LeadingSpace(s);
    var t := s[i..];
    t[..KeptLength(t)]
  }

  lemma TrimSpec(s: string)
    ensures var r := Trim(s);
      && (exists i, j :: 0 <= i <= j <= |s| && r == s[i..j] && AllSpace(s[..i]) && AllSpace(s[j..]))
      && (r == "" || (!IsSpace(r[0]) && !IsSpace(r[|r| - 1])))
  {
    var i := LeadingSpace(s);
    var t := s[i..];
    var j := KeptLength(t);
    LeadingSpaceSpec(s);
    KeptLengthSpec(t);
    assert s[i + j..] == t[j..];
    assert t[..j] == s[i..i + j];
    if j > 0 {
      assert t[0] == s[i];
    }
  }

  /** A string without white space at either end trims to itself. */
  lemma TrimKeeps(s: string)
    requires |s| > 0 && !IsSpace(s[0]) && !IsSpace(s[|s| - 1])
    ensures Trim(s) == s
  {
    assert LeadingSpace(s) == 0;
    assert s[0..] == s;
  }

  /** A string trims to "" exactly when it is white space only, which is the
      test `if (!s.trim())` makes. */
  lemma TrimEmptyIffAllSpace(s: string)
    ensures Trim(s) == "" <==> AllSpace(s)
  {
    var r := Trim(s);
    TrimSpec(s);
    var i, j :| 0 <= i <= j <= |s| && r == s[i..j] && AllSpace(s[..i]) && AllSpace(s[j..]);
    if r == "" {
      assert i == j;
      forall k | 0 <= k < |s| ensures IsSpace(s[k]) {
        if k < i { assert s[k] == s[..i][k]; } else { assert s[k] == s[j..][k - j]; }
      }
    }
  }

  /** Trimming twice changes nothing. */
  lemma TrimIdempotent(s: string)
    ensures Trim(Trim(s)) == Trim(s)
  {
    var r := Trim(s);
    var r2 := Trim(r);
    TrimSpec(s);
    TrimSpec(r);
    var i, j :| 0 <= i <= j <= |r| && r2 == r[i..j] && AllSpace(r[..i]) && AllSpace(r[j..]);
    if r != "" {
      assert r2 == r[0..|r|];
    }
  }

  // ---------------------------------------------------------------------
  // split / join on a single separator character
  // ---------------------------------------------------------------------

  function IndexOf(s: string, c: char): (i: nat)
    requires c in s
    ensures i < |s| && s[i] == c && c !in s[..i]
  {
    if s[0] == c then 0 else 1 + IndexOf(s[1..], c)
  }

  /** JavaScript `s.split(sep)` for a one-character separator: always at
      least one piece, no piece contains the separator, and joining the
      pieces with the separator gives `s` back. */
  function Split(s: string, sep: char): (parts: seq<string>)
    ensures |parts| >= 1
    ensures forall k :: 0 <= k < |parts| ==> sep !in parts[k]
    ensures Join(parts, sep) == s
    decreases |s|
  {
    if sep !in s then [s]
    else
      var i := IndexOf(s, sep);
      var rest := Split(s[i + 1..], sep);
      assert s == s[..i] + [sep] + s[i + 1..];
      assert ([s[..i]] + rest)[1..] == rest;
      [s[..i]] + rest
  }

  /** `parts.join(sep)` (JavaScript) and `sep.join(parts)` (Python). */
  function Join(parts: seq<string>, sep: char): string {
    if |parts| == 0 then ""
    else if |parts| == 1 then parts[0]
    else parts[0] + [sep] + Join(parts[1..], sep)
  }

  /** Splitting a joined list gives the list back when no piece holds the
      separator. */
  lemma {:induction false} SplitJoin(parts: seq<string>, sep: char)
    requires |parts| >= 1
    requires forall k :: 0 <= k < |parts| ==> sep !in parts[k]
    ensures Split(Join(parts, sep), sep) == parts
  {
    if |parts| == 1 {
    } else {
      var p := parts[0];
      var s := Join(parts, sep);
      var rest := Join(parts[1..], sep);
      assert s == p + [sep] + rest;
      assert s[|p|] == sep;
      var i := IndexOf(s, sep);
      assert i == |p| by {
        assert s[..|p|] == p;
      }
      assert s[i + 1..] == rest;
      assert s[..i] == p;
      SplitJoin(parts[1..], sep);
      assert Split(s, sep) == [p] + parts[1..];
    }
  }

  // ---------------------------------------------------------------------
  // Decimal printing (Python `str(n)`, JavaScript template literals)
  // ---------------------------------------------------------------------

  function DigitChar(d: nat): (c: char)
    requires d < 10
    ensures '0' <= c <= '9'
  {
    ['0', '1', '2', '3', '4', '5', '6', '7', '8', '9'][d]
  }

  function NatToString(n: nat): (s: string)
    ensures |s| >= 1
    ensures forall k :: 0 <= k < |s| ==> '0' <= s[k] <= '9'
    ensures s[0] == '0' ==> n == 0
  {
    if n < 10 then [DigitChar(n)]
    else
      var p := NatToString(n / 10);
      p + [DigitChar(n % 10)]
  }

  function DigitValue(c: char): nat
    requires '0' <= c <= '9'
  {
    (c as int) - ('0' as int)
  }

  /** Reading the digits back gives the number: the printing is injective. */
  function ParseDecimal(s: string): nat
    requires forall k :: 0 <= k < |s| ==> '0' <= s[k] <= '9'
  {
    if |s| == 0 then 0 else 10 * ParseDecimal(s[..|s| - 1]) + DigitValue(s[|s| - 1])
  }

  lemma {:induction false} ParsePrinted(n: nat)
    ensures ParseDecimal(NatToString(n)) == n
  {
    if n >= 10 {
      var s := NatToString(n);
      assert s[..|s| - 1] == NatToString(n / 10);
      ParsePrinted(n / 10);
    }
  }
}
