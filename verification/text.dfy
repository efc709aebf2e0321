/** Text primitives with the semantics of the Python string methods the server code relies on:
    `strip`, `split`, `rsplit(sep, 1)`, `rfind`, `lower`, `replace` of one character, and `int()`
    on decimal text. Strings are sequences of characters; case mapping and decimal digits are
    ASCII only, and whitespace is the part of Python's `isspace` set below U+00A1. */
module Text {
  import opened Wrappers

  // ---------------------------------------------------------------------------
  // Whitespace and strip
  // ---------------------------------------------------------------------------

  /** The characters Python's `str.isspace` accepts below U+00A1. */
  predicate IsSpace(c: char) {
    c == ' ' || c == '\t' || c == '\n' || c == '\r' || c == '\U{B}' || c == '\U{C}'
    || c == '\U{1C}' || c == '\U{1D}' || c == '\U{1E}' || c == '\U{1F}'
    || c == '\U{85}' || c == '\U{A0}'
  }

  predicate AllSpace(s: string) {
    forall i :: 0 <= i < |s| ==> IsSpace(s[i])
  }

  /** The number of whitespace characters `s.lstrip()` removes. */
  function LeadSpaces(s: string): (n: nat)
    ensures n <= |s|
    ensures n < |s| ==> !IsSpace(s[n])
    decreases |s|
  {
    if |s| > 0 && IsSpace(s[0]) then 1 + LeadSpaces(s[1..]) else 0
  }

  /** The number of whitespace characters `s.rstrip()` removes. */
  function TrailSpaces(s: string): (n: nat)
    ensures n <= |s|
    ensures n < |s| ==> !IsSpace(s[|s| - 1 - n])
    decreases |s|
  {
    if |s| > 0 && IsSpace(s[|s| - 1]) then 1 + TrailSpaces(s[..|s| - 1]) else 0
  }

  /** Everything `lstrip` removes is whitespace. */
  lemma {:induction false} LeadSpacesAll(s: string)
    ensures AllSpace(s[..LeadSpaces(s)])
    decreases |s|
  {
    if |s| > 0 && IsSpace(s[0]) {
      LeadSpacesAll(s[1..]);
      var n := LeadSpaces(s);
      var q := s[..n];
      assert q == [s[0]] + s[1..][..n - 1];
      forall i | 0 <= i < |q| ensures IsSpace(q[i]) {
        if i > 0 {
          assert q[i] == s[1..][..n - 1][i - 1];
        }
      }
    }
  }

  /** Everything `rstrip` removes is whitespace. */
  lemma {:induction false} TrailSpacesAll(s: string)
    ensures AllSpace(s[|s| - TrailSpaces(s)..])
    decreases |s|
  {
    if |s| > 0 && IsSpace(s[|s| - 1]) {
      var p := s[..|s| - 1];
      TrailSpacesAll(p);
      var k := |p| - TrailSpaces(p);
      assert |s| - TrailSpaces(s) == k;
      var q := s[k..];
      var w := p[k..];
      assert q == w + [s[|s| - 1]];
      forall i | 0 <= i < |q| ensures IsSpace(q[i]) {
        if i < |w| {
          assert q[i] == w[i];
        }
      }
    }
  }

  /** `s.strip()`: the text between the leading and the trailing whitespace; `StripSlice`
      says which part of `s` it is. */
  function Strip(s: string): (r: string)
    ensures |r| <= |s|
    ensures |r| > 0 ==> !IsSpace(r[0]) && !IsSpace(r[|r| - 1])
  {
    var l := s[LeadSpaces(s)..];
    l[..|l| - TrailSpaces(l)]
  }

  /** `s.strip()` is the slice of `s` from the first non-whitespace character on, and what
      lies before and after it is whitespace. */
  lemma StripSlice(s: string)
    ensures LeadSpaces(s) + |Strip(s)| <= |s|
    ensures Strip(s) == s[LeadSpaces(s)..LeadSpaces(s) + |Strip(s)|]
    ensures AllSpace(s[..LeadSpaces(s)]) && AllSpace(s[LeadSpaces(s) + |Strip(s)|..])
  {
    var a := LeadSpaces(s);
    var l := s[a..];
    var b := |l| - TrailSpaces(l);
    assert Strip(s) == l[..b];
    LeadSpacesAll(s);
    TrailSpacesAll(l);
    assert l[..b] == s[a..a + b];
    assert l[b..] == s[a + b..];
  }

  /** A string without leading or trailing whitespace is left alone by `strip`. */
  lemma StripTrimmed(s: string)
    requires |s| > 0 ==> !IsSpace(s[0]) && !IsSpace(s[|s| - 1])
    ensures Strip(s) == s
  {
  }

  /** `strip` is idempotent. */
  lemma StripIdempotent(s: string)
    ensures Strip(Strip(s)) == Strip(s)
  {
    StripTrimmed(Strip(s));
  }

  // ---------------------------------------------------------------------------
  // Searching
  // ---------------------------------------------------------------------------

  /** `sub` occurs in `s` at index `i`. */
  predicate At(s: string, sub: string, i: int) {
    0 <= i && i + |sub| <= |s| && s[i..i + |sub|] == sub
  }

  /** Python's `sub in s`. */
  predicate Contains(s: string, sub: string) {
    exists i :: 0 <= i <= |s| && At(s, sub, i)
  }

  /** `s.endswith(suffix)`; `s.startswith(prefix)` is Dafny's `prefix <= s`. */
  predicate EndsWith(s: string, suffix: string) {
    |suffix| <= |s| && s[|s| - |suffix|..] == suffix
  }

  /** The largest index `j <= k` where `sub` occurs, or -1. */
  function RFindBelow(s: string, sub: string, k: int): (r: int)
    ensures r == -1 || 0 <= r <= k
    ensures r >= 0 ==> At(s, sub, r)
    ensures forall j :: r < j <= k ==> !At(s, sub, j)
    decreases k + 1
  {
    if k < 0 then -1
    else if At(s, sub, k) then k
    else RFindBelow(s, sub, k - 1)
  }

  /** `s.rfind(sub)`: the last index where `sub` occurs, or -1 when it does not occur. */
  function RFind(s: string, sub: string): (r: int)
    ensures r == -1 <==> !Contains(s, sub)
    ensures r >= 0 ==> At(s, sub, r) && forall j :: r < j ==> !At(s, sub, j)
  {
    RFindBelow(s, sub, |s| - |sub|)
  }

  /** The first index of `c` in `s`, if any. */
  function IndexOf(s: string, c: char): (r: Option<nat>)
    ensures r.None? <==> c !in s
    ensures r.Some? ==> r.value < |s| && s[r.value] == c && c !in s[..r.value]
  {
    if |s| == 0 then None
    else if s[0] == c then Some(0)
    else match IndexOf(s[1..], c)
      case None => None
      case Some(i) =>
        assert s[..i + 1] == [s[0]] + s[1..][..i];
        Some(i + 1)
  }

  /** The last index of `c` in `s`, if any. */
  function LastIndexOf(s: string, c: char): (r: Option<nat>)
    ensures r.None? <==> c !in s
    ensures r.Some? ==> r.value < |s| && s[r.value] == c && c !in s[r.value + 1..]
    decreases |s|
  {
    if |s| == 0 then None
    else if s[|s| - 1] == c then Some(|s| - 1)
    else match LastIndexOf(s[..|s| - 1], c)
      case None => None
      case Some(i) =>
        assert s[i + 1..] == s[..|s| - 1][i + 1..] + [s[|s| - 1]];
        Some(i)
  }

  // ---------------------------------------------------------------------------
  // split / join / rsplit
  // ---------------------------------------------------------------------------

  /** `sep.join(parts)` for a one-character separator. */
  function Join(parts: seq<string>, sep: char): string
    decreases |parts|
  {
    if |parts| == 0 then ""
    else if |parts| == 1 then parts[0]
    else parts[0] + [sep] + Join(parts[1..], sep)
  }

  /** `s.split(sep)` for a one-character separator: the pieces between separators, so that
      joining them back gives `s`. */
  function Split(s: string, sep: char): (parts: seq<string>)
    ensures |parts| >= 1
    ensures forall i :: 0 <= i < |parts| ==> sep !in parts[i]
    ensures Join(parts, sep) == s
    decreases |s|
  {
    match IndexOf(s, sep)
    case None => [s]
    case Some(i) =>
      var rest := Split(s[i + 1..], sep);
      assert s == s[..i] + [sep] + s[i + 1..];
      [s[..i]] + rest
  }

  /** Splitting a join of separator-free pieces gives the pieces back. */
  lemma {:induction false} SplitJoin(parts: seq<string>, sep: char)
    requires |parts| >= 1
    requires forall i :: 0 <= i < |parts| ==> sep !in parts[i]
    ensures Split(Join(parts, sep), sep) == parts
    decreases |parts|
  {
    if |parts| == 1 {
      assert Join(parts, sep) == parts[0];
    } else {
      var s := Join(parts, sep);
      var tail := Join(parts[1..], sep);
      assert s == parts[0] + [sep] + tail;
      SplitAtFirst(parts[0], sep, tail);
      SplitJoin(parts[1..], sep);
      assert Split(s, sep) == [parts[0]] + Split(tail, sep);
      assert parts == [parts[0]] + parts[1..];
    }
  }

  /** The first separator of `head + [sep] + tail`, when `head` has none, ends `head`. */
  lemma SplitAtFirst(head: string, sep: char, tail: string)
    requires sep !in head
    ensures var s := head + [sep] + tail;
            IndexOf(s, sep) == Some(|head|) && s[..|head|] == head && s[|head| + 1..] == tail
  {
    var s := head + [sep] + tail;
    assert s[..|head|] == head;
    assert s[|head|] == sep;
    assert s[|head| + 1..] == tail;
  }

  /** `s.rsplit(sep, 1)`: the text before the last separator and, when there is a separator,
      the text after it. */
  function RSplit1(s: string, sep: char): (r: (string, Option<string>))
    ensures r.1.None? <==> sep !in s
    ensures r.1.None? ==> r.0 == s
    ensures r.1.Some? ==> r.0 + [sep] + r.1.value == s && sep !in r.1.value
  {
    match LastIndexOf(s, sep)
    case None => (s, None)
    case Some(i) =>
      assert s == s[..i] + [sep] + s[i + 1..];
      (s[..i], Some(s[i + 1..]))
  }

  /** Splitting at the last separator undoes appending a separator-free tail. */
  lemma RSplit1Append(head: string, sep: char, tail: string)
    requires sep !in tail
    ensures RSplit1(head + [sep] + tail, sep) == (head, Some(tail))
  {
    var s := head + [sep] + tail;
    assert s[|head|] == sep;
    var i := LastIndexOf(s, sep).value;
    assert s[..i] == head;
    assert s[i + 1..] == tail;
  }

  // ---------------------------------------------------------------------------
  // Character edits
  // ---------------------------------------------------------------------------

  /** `s.replace(c, "")` */
  function RemoveChar(s: string, c: char): (r: string)
    ensures c !in r
    ensures forall x :: x != c ==> (x in r <==> x in s)
    ensures forall i :: 0 <= i < |r| ==> r[i] in s
    ensures |r| <= |s|
  {
    if |s| == 0 then ""
    else if s[0] == c then RemoveChar(s[1..], c)
    else [s[0]] + RemoveChar(s[1..], c)
  }

  /** Removing a character that does not occur changes nothing. */
  lemma RemoveCharAbsent(s: string, c: char)
    requires c !in s
    ensures RemoveChar(s, c) == s
  {
  }

  /** ASCII lower-casing of one character. */
  function LowerChar(c: char): (r: char)
    ensures 'A' <= c <= 'Z' ==> r as int == c as int + 32
    ensures !('A' <= c <= 'Z') ==> r == c
  {
    if 'A' <= c <= 'Z' then (c as int + 32) as char else c
  }

  /** `s.lower()` on the ASCII range. */
  function Lower(s: string): (r: string)
    ensures |r| == |s|
    ensures forall i :: 0 <= i < |s| ==> r[i] == LowerChar(s[i])
  {
    if |s| == 0 then "" else [LowerChar(s[0])] + Lower(s[1..])
  }

  /** Python's regular-expression class `\w` on ASCII. */
  predicate IsWordChar(c: char) {
    'a' <= c <= 'z' || 'A' <= c <= 'Z' || '0' <= c <= '9' || c == '_'
  }

  // ---------------------------------------------------------------------------
  // Decimal numbers
  // ---------------------------------------------------------------------------

  predicate IsDigit(c: char) {
    '0' <= c <= '9'
  }

  /** A non-empty run of decimal digits (the regular expression `^\d+$`). */
  predicate IsDigits(s: string) {
    |s| > 0 && forall i :: 0 <= i < |s| ==> IsDigit(s[i])
  }

  function DigitChar(d: nat): (c: char)
    requires d < 10
    ensures IsDigit(c) && c as int == '0' as int + d
  {
    ('0' as int + d) as char
  }

  /** The value of a string of decimal digits. */
  function DigitsValue(s: string): nat
    requires forall i :: 0 <= i < |s| ==> IsDigit(s[i])
    decreases |s|
  {
    if |s| == 0 then 0
    else DigitsValue(s[..|s| - 1]) * 10 + DigitValue(s[|s| - 1])
  }

  function DigitValue(c: char): (d: nat)
    requires IsDigit(c)
    ensures d < 10 && DigitChar(d) == c
  {
    c as int - '0' as int
  }

  /** `str(n)` for a natural number. */
  function NatToString(n: nat): (r: string)
    ensures IsDigits(r)
    decreases n
  {
    if n < 10 then [DigitChar(n)] else NatToString(n / 10) + [DigitChar(n % 10)]
  }

  /** Parses a non-empty string of digits. */
  function ParseNat(s: string): (r: Option<nat>)
    ensures r.Some? <==> IsDigits(s)
  {
    if IsDigits(s) then Some(DigitsValue(s)) else None
  }

  /** Printing a natural number and parsing it back gives the number. */
  lemma {:induction false} ParseNatToString(n: nat)
    ensures ParseNat(NatToString(n)) == Some(n)
    decreases n
  {
    var s := NatToString(n);
    if n < 10 {
      assert s[..|s| - 1] == [];
      assert DigitsValue(s) == DigitsValue(s[..|s| - 1]) * 10 + DigitValue(s[0]);
      assert DigitValue(s[0]) == n;
    } else {
      ParseNatToString(n / 10);
      assert s[..|s| - 1] == NatToString(n / 10);
      assert DigitValue(s[|s| - 1]) == n % 10;
    }
  }

  /** A decimal rendering contains none of the given non-digit characters. */
  lemma DigitsExclude(s: string, c: char)
    requires IsDigits(s) && !IsDigit(c)
    ensures c !in s
  {
  }

  /** The body of Python's `int()` after the sign: digits, with single underscores allowed
      between digits. */
  predicate Underscored(s: string) {
    |s| > 0 && IsDigit(s[0]) && IsDigit(s[|s| - 1])
    && (forall i :: 0 <= i < |s| ==> IsDigit(s[i]) || s[i] == '_')
    && (forall i :: 0 <= i < |s| - 1 ==> !(s[i] == '_' && s[i + 1] == '_'))
  }

  /** `int(s)` for a string argument: surrounding whitespace is ignored, an optional sign is
      allowed, and anything else raises ValueError (here `None`). */
  function PyInt(s: string): (r: Option<int>)
    ensures r.Some? ==> |Strip(s)| > 0
  {
    IntBody(Strip(s))
  }

  /** `int()` applied to text without surrounding whitespace. */
  function IntBody(t: string): (r: Option<int>)
    ensures r.Some? ==> |t| > 0
  {
    if |t| > 0 && (t[0] == '-' || t[0] == '+') then
      var body := t[1..];
      if Underscored(body) then
        var v := UnderscoredValue(body);
        Some(if t[0] == '-' then -(v as int) else v)
      else None
    else if Underscored(t) then Some(UnderscoredValue(t))
    else None
  }

  /** The value of digits separated by underscores. */
  function UnderscoredValue(s: string): nat
    requires Underscored(s)
  {
    var d := RemoveChar(s, '_');
    assert forall i :: 0 <= i < |d| ==> IsDigit(d[i]) by {
      forall i | 0 <= i < |d| ensures IsDigit(d[i]) {
        assert d[i] in s && d[i] != '_';
      }
    }
    DigitsValue(d)
  }

  /** Plain digits are a valid `int()` body with their decimal value. */
  lemma UnderscoredDigits(d: string)
    requires IsDigits(d)
    ensures Underscored(d) && UnderscoredValue(d) == DigitsValue(d)
  {
    RemoveCharAbsent(d, '_');
  }

  /** `int(str(n)) == n` */
  lemma PyIntNat(n: nat)
    ensures PyInt(NatToString(n)) == Some(n)
  {
    NatToStringValue(n);
    DigitsOfValue(NatToString(n), n);
  }

  lemma NatToStringValue(n: nat)
    ensures DigitsValue(NatToString(n)) == n
  {
    ParseNatToString(n);
  }

  lemma DigitsOfValue(d: string, n: nat)
    requires IsDigits(d) && DigitsValue(d) == n
    ensures PyInt(d) == Some(n)
    ensures PyInt("-" + d) == Some(-(n as int))
  {
    PyIntDigits(d);
    PyIntMinusDigits(d);
  }

  /** `int()` of plain digits is their decimal value. */
  lemma PyIntDigits(d: string)
    requires IsDigits(d)
    ensures PyInt(d) == Some(DigitsValue(d))
  {
    StripTrimmed(d);
    assert !(d[0] == '-' || d[0] == '+');
    UnderscoredDigits(d);
  }

  /** `int("-" + str(n)) == -n` */
  lemma PyIntNegative(n: nat)
    ensures PyInt("-" + NatToString(n)) == Some(-(n as int))
  {
    NatToStringValue(n);
    DigitsOfValue(NatToString(n), n);
  }

  /** `int("-" + d)` of digits `d` is the negated value of `d`. */
  lemma PyIntMinusDigits(d: string)
    requires IsDigits(d)
    ensures PyInt("-" + d) == Some(-(DigitsValue(d) as int))
  {
    var s := "-" + d;
    assert s[0] == '-' && s[1..] == d;
    PyIntSigned(s);
  }

  /** `int()` of a minus sign followed by digits is the negated value of the digits. */
  lemma PyIntSigned(t: string)
    requires |t| > 1 && t[0] == '-' && IsDigits(t[1..])
    ensures PyInt(t) == Some(-(DigitsValue(t[1..]) as int))
  {
    assert !IsSpace(t[|t| - 1]) by {
      assert t[1..][|t| - 2] == t[|t| - 1];
    }
    StripTrimmed(t);
    UnderscoredDigits(t[1..]);
    SignedBody(t);
  }

  /** A signed `int()` body is the negated value of what follows the sign. */
  lemma SignedBody(t: string)
    requires |t| > 0 && t[0] == '-' && Underscored(t[1..])
    ensures IntBody(t) == Some(-(UnderscoredValue(t[1..]) as int))
  {
  }

  /** Text holding a character that is neither a digit, a sign, an underscore nor whitespace
      is not a number. */
  lemma PyIntRejects(s: string, i: int)
    requires 0 <= i < |s|
    requires !IsDigit(s[i]) && s[i] != '_' && s[i] != '-' && s[i] != '+' && !IsSpace(s[i])
    ensures PyInt(s) == None
  {
    var t := Strip(s);
    var k := LeadSpaces(s);
    StripSlice(s);
    TrimmedRejects(s, t, k, i);
  }

  /** A bad character that is not whitespace survives the trimming of whitespace at both
      ends, and rules the trimmed text out. */
  lemma TrimmedRejects(s: string, t: string, k: nat, i: nat)
    requires k + |t| <= |s| && t == s[k..k + |t|] && i < |s|
    requires AllSpace(s[..k]) && AllSpace(s[k + |t|..])
    requires !IsDigit(s[i]) && s[i] != '_' && s[i] != '-' && s[i] != '+' && !IsSpace(s[i])
    ensures IntBody(t) == None
  {
    NoSpaceIn(s[..k], s[i]);
    NoSpaceIn(s[k + |t|..], s[i]);
    Between(s, k, |t|, i);
    StripHolds(s, t, k, i);
  }

  /** A character that is not whitespace does not occur in all-whitespace text. */
  lemma NoSpaceIn(p: string, c: char)
    requires AllSpace(p) && !IsSpace(c)
    ensures c !in p
  {
  }

  /** An index lies before `a`, from `a + b` on, or in between. */
  lemma Between(s: string, a: nat, b: nat, i: nat)
    requires a + b <= |s| && i < |s|
    ensures a <= i < a + b || s[i] in s[..a] || s[i] in s[a + b..]
  {
    if i < a {
      assert s[..a][i] == s[i];
    } else if i >= a + b {
      assert s[a + b..][i - a - b] == s[i];
    }
  }

  /** A character of the stripped text that cannot appear in a number rules the text out. */
  lemma StripHolds(s: string, t: string, k: int, i: int)
    requires 0 <= k <= i < k + |t| <= |s| && t == s[k..k + |t|]
    requires !IsDigit(s[i]) && s[i] != '_' && s[i] != '-' && s[i] != '+'
    ensures IntBody(t) == None
  {
    assert t[i - k] == s[i];
    if |t| > 0 && (t[0] == '-' || t[0] == '+') {
      assert t[1..][i - k - 1] == s[i];
      assert !Underscored(t[1..]);
    } else {
      assert !Underscored(t);
    }
  }

  /** `str(i)` for any integer. */
  function IntToString(i: int): (r: string)
    ensures i >= 0 ==> IsDigits(r)
    ensures i < 0 ==> |r| > 1 && r[0] == '-' && IsDigits(r[1..])
  {
    if i >= 0 then NatToString(i) else "-" + NatToString(-i)
  }

  /** `int(str(i)) == i` */
  lemma IntToStringParses(i: int)
    ensures PyInt(IntToString(i)) == Some(i)
  {
    if i >= 0 {
      PyIntNat(i);
    } else {
      PyIntNegative(-i);
    }
  }

  // ---------------------------------------------------------------------------
  // String order
  // ---------------------------------------------------------------------------

  /** Python's `<=` on strings: code point by code point, a proper prefix first. */
  predicate LexLe(a: string, b: string)
    decreases |a|
  {
    |a| == 0 || (|b| > 0 && (a[0] < b[0] || (a[0] == b[0] && LexLe(a[1..], b[1..]))))
  }

  /** Any two strings are comparable. */
  lemma {:induction false} LexLeTotal(a: string, b: string)
    ensures LexLe(a, b) || LexLe(b, a)
    decreases |a|
  {
    if |a| > 0 && |b| > 0 && a[0] == b[0] {
      LexLeTotal(a[1..], b[1..]);
    }
  }

  lemma {:induction false} LexLeReflexive(a: string)
    ensures LexLe(a, a)
    decreases |a|
  {
    if |a| > 0 {
      LexLeReflexive(a[1..]);
    }
  }

  /** Strings ordered both ways are equal. */
  lemma {:induction false} LexLeAntisymmetric(a: string, b: string)
    requires LexLe(a, b) && LexLe(b, a)
    ensures a == b
    decreases |a|
  {
    if |a| > 0 {
      LexLeAntisymmetric(a[1..], b[1..]);
      assert a == [a[0]] + a[1..] && b == [b[0]] + b[1..];
    }
  }

  lemma {:induction false} LexLeTransitive(a: string, b: string, c: string)
    requires LexLe(a, b) && LexLe(b, c)
    ensures LexLe(a, c)
    decreases |a|
  {
    if |a| > 0 && a[0] == b[0] && b[0] == c[0] {
      LexLeTransitive(a[1..], b[1..], c[1..]);
    }
  }
}
