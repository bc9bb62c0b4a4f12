/**
 * String helpers with the meaning JavaScript gives them: white space as matched by
 * `\s` and stripped by `trim`, `Array.prototype.join`, `String.prototype.includes`
 * and the decimal rendering of a number inside a template literal.
 */
module Text {

  /** JavaScript's WhiteSpace and LineTerminator code points: what `\s` matches and `trim` strips. */
  predicate IsSpace(c: char) {
    c == '\t' || c == '\n' || c == '\U{000B}' || c == '\U{000C}' || c == '\r' || c == ' ' ||
    c == '\U{00A0}' || c == '\U{1680}' || ('\U{2000}' <= c <= '\U{200A}') ||
    c == '\U{2028}' || c == '\U{2029}' || c == '\U{202F}' || c == '\U{205F}' ||
    c == '\U{3000}' || c == '\U{FEFF}'
  }

  /** The end of the white-space run starting at q (q itself when s[q] is not white space). */
  function SpaceRunEnd(s: string, q: nat): (e: nat)
    requires q <= |s|
    ensures q <= e <= |s|
    ensures forall j :: q <= j < e ==> IsSpace(s[j])
    ensures e == |s| || !IsSpace(s[e])
    decreases |s| - q
  {
    if q < |s| && IsSpace(s[q]) then SpaceRunEnd(s, q + 1) else q
  }

  /** The start of the white-space run that ends at m, not going below k. */
  function SpaceRunStart(s: string, k: nat, m: nat): (e: nat)
    requires k <= m <= |s|
    ensures k <= e <= m
    ensures forall j :: e <= j < m ==> IsSpace(s[j])
    ensures e == k || !IsSpace(s[e - 1])
    decreases m
  {
    if m > k && IsSpace(s[m - 1]) then SpaceRunStart(s, k, m - 1) else m
  }

  /** r is s[k..k+|r|] and everything of s outside that slice is white space. */
  predicate StripsTo(s: string, r: string, k: int) {
    0 <= k <= |s| - |r| && s[k..k + |r|] == r &&
    (forall i :: 0 <= i < k ==> IsSpace(s[i])) &&
    (forall i :: k + |r| <= i < |s| ==> IsSpace(s[i]))
  }

  /**
   * `String.prototype.trim`: the slice of s left when the white space on both ends is
   * removed; it neither starts nor ends with white space.
   */
  function Trim(s: string): (r: string)
    ensures |r| <= |s|
    ensures r == [] || (!IsSpace(r[0]) && !IsSpace(r[|r| - 1]))
    ensures exists k :: StripsTo(s, r, k)
  {
    var k := SpaceRunEnd(s, 0);
    var e := SpaceRunStart(s, k, |s|);
    assert StripsTo(s, s[k..e], k);
    s[k..e]
  }

  /** parts[0] + seps[0] + parts[1] + ... + seps[n-2] + parts[n-1]. */
  function Interleave(parts: seq<string>, seps: seq<string>): string
    requires |parts| == |seps| + 1
    decreases |seps|
  {
    if seps == [] then parts[0] else parts[0] + seps[0] + Interleave(parts[1..], seps[1..])
  }

  /** `parts.join(sep)`: the parts interleaved with copies of one separator. */
  function JoinWith(parts: seq<string>, sep: string): string
  {
    if parts == [] then "" else Interleave(parts, seq(|parts| - 1, _ => sep))
  }

  lemma {:induction false} InterleaveSnoc(parts: seq<string>, seps: seq<string>, x: string, sep: string)
    requires |parts| == |seps| + 1
    ensures Interleave(parts + [x], seps + [sep]) == Interleave(parts, seps) + sep + x
    decreases |seps|
  {
    if seps == [] {
      assert (parts + [x])[1..] == [x];
    } else {
      assert (parts + [x])[1..] == parts[1..] + [x];
      assert (seps + [sep])[1..] == seps[1..] + [sep];
      InterleaveSnoc(parts[1..], seps[1..], x, sep);
    }
  }

  /** Joining one more part appends the separator and that part. */
  lemma JoinWithSnoc(parts: seq<string>, x: string, sep: string)
    requires parts != []
    ensures JoinWith(parts + [x], sep) == JoinWith(parts, sep) + sep + x
  {
    assert seq(|parts + [x]| - 1, _ => sep) == seq(|parts| - 1, _ => sep) + [sep];
    InterleaveSnoc(parts, seq(|parts| - 1, _ => sep), x, sep);
  }

  /** A join is empty only when there is at most one part and that part is empty. */
  lemma JoinWithEmpty(parts: seq<string>, sep: string)
    requires sep != []
    ensures JoinWith(parts, sep) == [] <==> parts == [] || parts == [[]]
  {
    if |parts| >= 2 {
      var n := |parts| - 1;
      assert parts == parts[..n] + [parts[n]];
      JoinWithSnoc(parts[..n], parts[n], sep);
    } else if |parts| == 1 {
      assert parts == [parts[0]];
    }
  }

  /**
   * `s.length` in JavaScript: the number of UTF-16 code units of s, two for a code point
   * above U+FFFF and one for any other.
   */
  function Utf16Length(s: string): (n: nat)
    ensures |s| <= n <= 2 * |s|
  {
    if s == [] then 0 else Utf16Length(s[..|s| - 1]) + (if s[|s| - 1] as int > 0xFFFF then 2 else 1)
  }

  /** The UTF-16 length of a concatenation is the sum of the lengths. */
  lemma {:induction false} Utf16LengthAppend(a: string, b: string)
    ensures Utf16Length(a + b) == Utf16Length(a) + Utf16Length(b)
    decreases |b|
  {
    if b == [] {
      assert a + b == a;
    } else {
      var n := |b| - 1;
      assert (a + b)[..|a + b| - 1] == a + b[..n];
      Utf16LengthAppend(a, b[..n]);
    }
  }

  /** A prefix is never longer in code units than the whole. */
  lemma Utf16PrefixShorter(p: string, s: string)
    requires p <= s
    ensures Utf16Length(p) <= Utf16Length(s)
  {
    assert s == p + s[|p|..];
    Utf16LengthAppend(p, s[|p|..]);
  }

  /** Trimming never makes a string longer in code units. */
  lemma TrimShorter(s: string)
    ensures Utf16Length(Trim(s)) <= Utf16Length(s)
  {
    var r := Trim(s);
    var k :| StripsTo(s, r, k);
    assert s == s[..k] + r + s[k + |r|..];
    Utf16LengthAppend(s[..k] + r, s[k + |r|..]);
    Utf16LengthAppend(s[..k], r);
  }

  /** The join of some parts is a prefix of the join of those parts followed by more. */
  lemma {:induction false} JoinWithPrefix(a: seq<string>, b: seq<string>, sep: string)
    requires a != []
    ensures JoinWith(a, sep) <= JoinWith(a + b, sep)
    decreases |b|
  {
    if b != [] {
      var n := |b| - 1;
      assert a + b == (a + b[..n]) + [b[n]];
      JoinWithPrefix(a, b[..n], sep);
      JoinWithSnoc(a + b[..n], b[n], sep);
    } else {
      assert a + b == a;
    }
  }

  /** Separators at least as long in code units give an interleaving at least as long. */
  lemma {:induction false} InterleaveLengthMonotone(parts: seq<string>, seps1: seq<string>, seps2: seq<string>)
    requires |parts| == |seps1| + 1 && |seps1| == |seps2|
    requires forall i :: 0 <= i < |seps1| ==> Utf16Length(seps1[i]) <= Utf16Length(seps2[i])
    ensures Utf16Length(Interleave(parts, seps1)) <= Utf16Length(Interleave(parts, seps2))
    decreases |seps1|
  {
    if seps1 != [] {
      InterleaveLengthMonotone(parts[1..], seps1[1..], seps2[1..]);
      var r1, r2 := Interleave(parts[1..], seps1[1..]), Interleave(parts[1..], seps2[1..]);
      Utf16LengthAppend(parts[0] + seps1[0], r1);
      Utf16LengthAppend(parts[0], seps1[0]);
      Utf16LengthAppend(parts[0] + seps2[0], r2);
      Utf16LengthAppend(parts[0], seps2[0]);
    }
  }

  /** sub occurs in s starting at index i. */
  predicate OccursAt(s: string, sub: string, i: int) {
    0 <= i <= |s| - |sub| && s[i..i + |sub|] == sub
  }

  /** `s.includes(sub)`. */
  predicate Contains(s: string, sub: string) {
    exists i :: 0 <= i <= |s| && OccursAt(s, sub, i)
  }

  /** An occurrence stays an occurrence when text is added in front. */
  lemma ContainsAfter(pre: string, s: string, sub: string)
    requires Contains(s, sub)
    ensures Contains(pre + s, sub)
  {
    var j :| 0 <= j <= |s| && OccursAt(s, sub, j);
    assert (pre + s)[|pre| + j..|pre| + j + |sub|] == s[j..j + |sub|];
    assert OccursAt(pre + s, sub, |pre| + j);
  }

  /** A string occurs at the start of any extension of it. */
  lemma ContainsPrefix(s: string, post: string)
    ensures Contains(s + post, s)
  {
    assert (s + post)[0..|s|] == s;
    assert OccursAt(s + post, s, 0);
  }

  /** Every part of an interleaving occurs in it. */
  lemma {:induction false} InterleaveContainsPart(parts: seq<string>, seps: seq<string>, i: nat)
    requires |parts| == |seps| + 1 && i < |parts|
    ensures Contains(Interleave(parts, seps), parts[i])
    decreases |seps|
  {
    if seps == [] {
      ContainsPrefix(parts[0], []);
      assert parts[0] + [] == parts[0];
    } else {
      var rest := Interleave(parts[1..], seps[1..]);
      assert Interleave(parts, seps) == parts[0] + (seps[0] + rest);
      if i == 0 {
        ContainsPrefix(parts[0], seps[0] + rest);
      } else {
        InterleaveContainsPart(parts[1..], seps[1..], i - 1);
        ContainsAfter(seps[0], rest, parts[i]);
        ContainsAfter(parts[0], seps[0] + rest, parts[i]);
      }
    }
  }

  function DigitChar(d: nat): (c: char)
    requires d < 10
    ensures '0' <= c <= '9'
  {
    (('0' as int) + d) as char
  }

  /** The decimal numeral of n, as `${n}` renders a non-negative integer. */
  function Decimal(n: nat): (r: string)
    ensures r != []
    ensures forall i :: 0 <= i < |r| ==> '0' <= r[i] <= '9'
    ensures |r| > 1 ==> r[0] != '0'
  {
    if n < 10 then [DigitChar(n)] else Decimal(n / 10) + [DigitChar(n % 10)]
  }

  /** The number a string of decimal digits denotes. */
  function DecimalValue(s: string): nat
    requires forall i :: 0 <= i < |s| ==> '0' <= s[i] <= '9'
  {
    if s == [] then 0 else DecimalValue(s[..|s| - 1]) * 10 + (s[|s| - 1] as int - '0' as int)
  }

  /** Reading the numeral back gives the number: distinct labels for distinct numbers. */
  lemma {:induction false} DecimalRoundTrip(n: nat)
    ensures DecimalValue(Decimal(n)) == n
  {
    if n >= 10 {
      DecimalRoundTrip(n / 10);
      var r := Decimal(n);
      assert r[..|r| - 1] == Decimal(n / 10);
    }
  }
}
