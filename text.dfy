/** The .NET string operations the services rely on, restricted to what they need. */
module Text {
  import opened Primitives

  /** `char.ToLowerInvariant` on ASCII letters; other characters unchanged. */
  function ToLowerChar(c: char): char {
    if 'A' <= c <= 'Z' then (c as int + 32) as char else c
  }

  /** `char.ToUpperInvariant` on ASCII letters; other characters unchanged. */
  function ToUpperChar(c: char): char {
    if 'a' <= c <= 'z' then (c as int - 32) as char else c
  }

  /** `string.ToLowerInvariant`. */
  function LowerInvariant(s: string): (r: string)
    ensures |r| == |s|
    ensures forall i :: 0 <= i < |s| ==> r[i] == ToLowerChar(s[i])
  {
    seq(|s|, i requires 0 <= i < |s| => ToLowerChar(s[i]))
  }

  /** `string.ToUpperInvariant`. */
  function UpperInvariant(s: string): (r: string)
    ensures |r| == |s|
    ensures forall i :: 0 <= i < |s| ==> r[i] == ToUpperChar(s[i])
  {
    seq(|s|, i requires 0 <= i < |s| => ToUpperChar(s[i]))
  }

  /** `string.Equals(a, b, StringComparison.OrdinalIgnoreCase)`. */
  predicate EqualsIgnoreCase(a: string, b: string) {
    |a| == |b| && forall i :: 0 <= i < |a| ==> ToLowerChar(a[i]) == ToLowerChar(b[i])
  }

  lemma LowerAgreesIgnoringCase(a: string, b: string)
    ensures EqualsIgnoreCase(a, b) <==> LowerInvariant(a) == LowerInvariant(b)
  {
    if |a| == |b| && forall i :: 0 <= i < |a| ==> ToLowerChar(a[i]) == ToLowerChar(b[i]) {
      assert forall i :: 0 <= i < |a| ==> LowerInvariant(a)[i] == LowerInvariant(b)[i];
    }
  }

  /** `string.StartsWith(prefix)` (ordinal). */
  predicate StartsWith(s: string, prefix: string) {
    prefix <= s
  }

  /** `t` occurs in `s` starting at index `i`. */
  predicate OccursAt(s: string, t: string, i: int) {
    0 <= i <= |s| - |t| && s[i..i + |t|] == t
  }

  /** `string.Contains(t)` (ordinal). */
  predicate Contains(s: string, t: string) {
    exists i :: 0 <= i <= |s| - |t| && OccursAt(s, t, i)
  }

  /** `string.Join(sep, parts)`. */
  function Join(parts: seq<string>, sep: string): string {
    if |parts| == 0 then ""
    else if |parts| == 1 then parts[0]
    else parts[0] + sep + Join(parts[1..], sep)
  }

  lemma ContainsPrefix(a: string, b: string, t: string)
    requires Contains(a, t)
    ensures Contains(a + b, t)
  {
    var i :| 0 <= i <= |a| - |t| && OccursAt(a, t, i);
    assert (a + b)[i..i + |t|] == a[i..i + |t|];
    assert OccursAt(a + b, t, i);
  }

  lemma ContainsSuffix(a: string, b: string, t: string)
    requires Contains(b, t)
    ensures Contains(a + b, t)
  {
    var i :| 0 <= i <= |b| - |t| && OccursAt(b, t, i);
    assert (a + b)[|a| + i..|a| + i + |t|] == b[i..i + |t|];
    assert OccursAt(a + b, t, |a| + i);
  }

  lemma CharOfOccurrence(s: string, t: string, i: int, k: int)
    requires 0 <= i <= |s| - |t| && OccursAt(s, t, i) && 0 <= k < |t|
    ensures s[i + k] == t[k] && s[i + k] in t
  {
    assert s[i..i + |t|][k] == s[i + k];
  }

  /** An occurrence of `t` in `p + sep + j` that cannot overlap `sep` lies inside `p` or `j`. */
  lemma OccurrenceAroundSeparator(p: string, sep: string, j: string, t: string, i: int)
    requires |sep| > 0 && |t| > 0
    requires sep[0] !in t && t[0] !in sep[1..]
    requires 0 <= i <= |p + sep + j| - |t| && OccursAt(p + sep + j, t, i)
    ensures Contains(p, t) || Contains(j, t)
  {
    var s := p + sep + j;
    if i + |t| <= |p| {
      assert s[i..i + |t|] == p[i..i + |t|];
      assert OccursAt(p, t, i);
    } else if i <= |p| {
      CharOfOccurrence(s, t, i, |p| - i);
      assert false;
    } else if i < |p| + |sep| {
      assert false;
    } else {
      var k := |p| + |sep|;
      assert s[i..i + |t|] == j[i - k..i - k + |t|];
      assert OccursAt(j, t, i - k);
    }
  }

  /**
   * A joined string contains `t` only when one of the parts does, provided `t` cannot
   * overlap a separator: it does not contain the separator's first character and does not
   * start with any later separator character.
   */
  lemma {:induction false} JoinContainsOnlyParts(parts: seq<string>, sep: string, t: string)
    requires |sep| > 0 && |t| > 0
    requires sep[0] !in t && t[0] !in sep[1..]
    requires Contains(Join(parts, sep), t)
    ensures exists k :: 0 <= k < |parts| && Contains(parts[k], t)
  {
    if |parts| == 1 {
      assert Contains(parts[0], t);
    } else {
      var p, rest := parts[0], parts[1..];
      var j := Join(rest, sep);
      assert Join(parts, sep) == p + sep + j;
      var i :| 0 <= i <= |p + sep + j| - |t| && OccursAt(p + sep + j, t, i);
      OccurrenceAroundSeparator(p, sep, j, t, i);
      if Contains(p, t) {
        assert Contains(parts[0], t);
      } else {
        JoinContainsOnlyParts(rest, sep, t);
        var m :| 0 <= m < |rest| && Contains(rest[m], t);
        assert parts[m + 1] == rest[m];
      }
    }
  }

  /** A joined string contains every string that one of its parts contains. */
  lemma {:induction false} JoinContainsParts(parts: seq<string>, sep: string, t: string, k: int)
    requires 0 <= k < |parts| && Contains(parts[k], t)
    ensures Contains(Join(parts, sep), t)
  {
    if |parts| > 1 {
      var p, rest := parts[0], parts[1..];
      var j := Join(rest, sep);
      assert Join(parts, sep) == p + sep + j;
      if k == 0 {
        ContainsPrefix(p, sep + j, t);
        assert p + (sep + j) == p + sep + j;
      } else {
        assert rest[k - 1] == parts[k];
        JoinContainsParts(rest, sep, t, k - 1);
        ContainsSuffix(p + sep, j, t);
      }
    }
  }

  /** `string.Replace(c, rep)` for a one-character pattern (ordinal). */
  function ReplaceChar(s: string, c: char, rep: string): (r: string)
    ensures c !in s ==> r == s
  {
    if |s| == 0 then ""
    else (if s[0] == c then rep else [s[0]]) + ReplaceChar(s[1..], c, rep)
  }

  lemma {:induction false} ReplaceCharConcat(a: string, b: string, c: char, rep: string)
    ensures ReplaceChar(a + b, c, rep) == ReplaceChar(a, c, rep) + ReplaceChar(b, c, rep)
  {
    if |a| == 0 {
      assert a + b == b;
    } else {
      assert (a + b)[0] == a[0];
      assert (a + b)[1..] == a[1..] + b;
      ReplaceCharConcat(a[1..], b, c, rep);
    }
  }

  /** After replacing every `c` by a string without `c`, no `c` is left. */
  lemma {:induction false} ReplaceCharRemoves(s: string, c: char, rep: string)
    requires c !in rep
    ensures c !in ReplaceChar(s, c, rep)
  {
    if |s| > 0 {
      ReplaceCharRemoves(s[1..], c, rep);
    }
  }

  /** One hexadecimal digit, upper- or lower-case. */
  function HexDigit(d: nat, upper: bool): (c: char)
    requires d < 16
  {
    if d < 10 then ('0' as int + d) as char
    else if upper then ('A' as int + d - 10) as char
    else ('a' as int + d - 10) as char
  }

  predicate IsUpperHexDigit(c: char) {
    '0' <= c <= '9' || 'A' <= c <= 'F'
  }

  /** The value of a hexadecimal digit of either case, or -1 for any other character. */
  function HexValue(c: char): (v: int)
    ensures -1 <= v < 16
  {
    if '0' <= c <= '9' then c as int - '0' as int
    else if 'A' <= c <= 'F' then c as int - 'A' as int + 10
    else if 'a' <= c <= 'f' then c as int - 'a' as int + 10
    else -1
  }

  lemma HexDigitValue(d: nat, upper: bool)
    requires d < 16
    ensures HexValue(HexDigit(d, upper)) == d
    ensures upper ==> IsUpperHexDigit(HexDigit(d, upper))
  {
  }

  /** The `width` low-order hexadecimal digits of `n`, most significant first. */
  function HexString(n: nat, width: nat, upper: bool): (r: string)
    ensures |r| == width
    ensures forall i :: 0 <= i < width ==> r[i] != '-' && r[i] != '/' && r[i] != '\\'
  {
    if width == 0 then ""
    else HexString(n / 16, width - 1, upper) + [HexDigit(n % 16, upper)]
  }

  /** `Guid.ToString()`: 32 lower-case hex digits in groups 8-4-4-4-12. */
  function GuidString(g: Guid): (r: string)
    ensures |r| == 36
    ensures '/' !in r && '\\' !in r
  {
    var h := HexString(g, 32, false);
    h[..8] + "-" + h[8..12] + "-" + h[12..16] + "-" + h[16..20] + "-" + h[20..]
  }

  /** Decimal text of a natural number, as C# interpolation prints an `int`. */
  function NatToString(n: nat): (r: string)
    ensures |r| > 0
    decreases n
  {
    if n < 10 then [('0' as int + n) as char]
    else NatToString(n / 10) + [('0' as int + n % 10) as char]
  }
}
