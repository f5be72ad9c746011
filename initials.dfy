/**
 * `InitialsSvgGenerator`: an avatar picture holding up to three initials of a name, on a
 * background colour derived from a SHA-1 digest of the name.
 */
module InitialsSvgGenerator {
  import opened Primitives
  import opened Text

  type Byte = b: int | 0 <= b < 256

  /** A SHA-1 digest: twenty bytes. */
  type Digest = d: seq<Byte> | |d| == 20 witness seq(20, _ => 0)

  // ---------------------------------------------------------------- the name

  /** `char.IsWhiteSpace`: the Unicode space separators, line and paragraph separators and the control characters 9-13, 0x85. */
  predicate IsWhiteSpace(c: char) {
    c == ' ' || '\t' <= c <= '\r' || c == '\U{85}' || c == '\U{A0}' || c == '\U{1680}'
    || '\U{2000}' <= c <= '\U{200A}' || c == '\U{2028}' || c == '\U{2029}' || c == '\U{202F}'
    || c == '\U{205F}' || c == '\U{3000}'
  }

  /** `string.IsNullOrWhiteSpace`. */
  predicate IsNullOrWhiteSpace(s: Option<string>) {
    s.None? || forall i :: 0 <= i < |s.value| ==> IsWhiteSpace(s.value[i])
  }

  /** The name the picture is drawn for: a null or blank name becomes "?". */
  function EffectiveName(fullName: Option<string>): (n: string)
    ensures IsNullOrWhiteSpace(fullName) ==> n == "?"
    ensures !IsNullOrWhiteSpace(fullName) ==> n == fullName.value && |n| > 0
  {
    if IsNullOrWhiteSpace(fullName) then "?" else fullName.value
  }

  /** The characters the name is split on. */
  predicate IsSeparator(c: char) {
    c == ' ' || c == '\t' || c == '\n' || c == '\r' || c == '-' || c == '_'
  }

  predicate IsWord(w: string) {
    |w| > 0 && forall j :: 0 <= j < |w| ==> !IsSeparator(w[j])
  }

  function Concat(parts: seq<string>): string {
    if |parts| == 0 then "" else parts[0] + Concat(parts[1..])
  }

  function WithoutSeparators(s: string): (r: string)
    ensures forall j :: 0 <= j < |r| ==> !IsSeparator(r[j])
  {
    if |s| == 0 then ""
    else (if IsSeparator(s[0]) then "" else [s[0]]) + WithoutSeparators(s[1..])
  }

  /**
   * `Split(separators, RemoveEmptyEntries)`: the maximal runs of non-separator characters, in
   * order; a name that starts with a letter has a first word starting with it.
   */
  function Tokens(s: string): (r: seq<string>)
    ensures forall k :: 0 <= k < |r| ==> IsWord(r[k])
    ensures |s| > 0 && !IsSeparator(s[0]) ==> |r| > 0 && |r[0]| > 0 && r[0][0] == s[0]
  {
    if |s| == 0 then []
    else
      var t := Tokens(s[1..]);
      if IsSeparator(s[0]) then t
      else if |s| > 1 && !IsSeparator(s[1]) then [[s[0]] + t[0]] + t[1..]
      else [[s[0]]] + t
  }

  /**
   * The words together hold every non-separator character of the name and nothing else, and
   * there are none exactly when the name is separators only.
   */
  lemma {:induction false} TokensCover(s: string)
    ensures Concat(Tokens(s)) == WithoutSeparators(s)
    ensures |Tokens(s)| == 0 <==> forall i :: 0 <= i < |s| ==> IsSeparator(s[i])
  {
    if |s| > 0 {
      TokensCover(s[1..]);
      var t := Tokens(s[1..]);
      assert forall i :: 1 <= i < |s| ==> s[1..][i - 1] == s[i];
      if IsSeparator(s[0]) {
      } else if |s| > 1 && !IsSeparator(s[1]) {
        var r := [[s[0]] + t[0]] + t[1..];
        assert r[1..] == t[1..];
        assert Concat(t) == t[0] + Concat(t[1..]);
      } else {
        var r := [[s[0]]] + t;
        assert r[1..] == t;
      }
    }
  }

  /** A single word is its own only token. */
  lemma {:induction false} TokensOfWord(w: string)
    requires IsWord(w)
    ensures Tokens(w) == [w]
  {
    if |w| == 1 {
      assert Tokens(w[1..]) == [];
      assert [w[0]] == w;
    } else {
      TokensOfWord(w[1..]);
      assert w[1..][0] == w[1];
      assert [w[0]] + w[1..] == w;
    }
  }

  /** A separator cuts the name in two, and the tokens are those of either side. */
  lemma {:induction false} TokensSplitAt(a: string, c: char, b: string)
    requires IsSeparator(c)
    ensures Tokens(a + [c] + b) == Tokens(a) + Tokens(b)
  {
    var s := a + [c] + b;
    if |a| == 0 {
      assert s[0] == c && s[1..] == b;
    } else {
      var a' := a[1..];
      assert s[0] == a[0] && s[1..] == a' + [c] + b;
      TokensSplitAt(a', c, b);
      if IsSeparator(a[0]) {
      } else if |a'| == 0 {
        assert s[1] == c && Tokens(a') == [];
      } else if IsSeparator(a[1]) {
        assert s[1] == a[1] && a'[0] == a[1];
      } else {
        assert s[1] == a[1] && a'[0] == a[1];
        var t := Tokens(a');
        assert (t + Tokens(b))[0] == t[0];
        assert (t + Tokens(b))[1..] == t[1..] + Tokens(b);
      }
    }
  }

  /** `ToUpper(new CultureInfo("ru-RU"))` on one character: Latin and basic Cyrillic letters. */
  function ToUpperRu(c: char): char {
    if 'a' <= c <= 'z' then (c as int - 32) as char
    else if 'а' <= c <= 'я' then (c as int - 32) as char
    else if 'ѐ' <= c <= 'џ' then (c as int - 80) as char
    else c
  }

  /** The upper-cased first letters of the first three words. */
  function Initials(words: seq<string>): (r: string)
    requires forall k :: 0 <= k < |words| ==> |words[k]| > 0
    ensures |words| == 0 ==> r == "?"
    ensures |words| > 0 ==>
      (|r| == Min(3, |words|) && forall i :: 0 <= i < |r| ==> r[i] == ToUpperRu(words[i][0]))
  {
    if |words| == 0 then "?"
    else seq(Min(3, |words|), i requires 0 <= i < Min(3, |words|) => ToUpperRu(words[i][0]))
  }

  /** The initials `GenerateSvg` draws for a name. */
  function InitialsOf(fullName: Option<string>): (r: string)
    ensures 1 <= |r| <= 3
  {
    Initials(Tokens(EffectiveName(fullName)))
  }

  /** A null or blank name, and a name of separators only, are drawn as "?". */
  lemma QuestionMarkFallback(fullName: Option<string>)
    requires IsNullOrWhiteSpace(fullName)
      || forall i :: 0 <= i < |fullName.value| ==> IsSeparator(fullName.value[i])
    ensures InitialsOf(fullName) == "?"
  {
    if IsNullOrWhiteSpace(fullName) {
      TokensOfWord("?");
    } else {
      TokensCover(fullName.value);
    }
  }

  /** For example, "-_-" has no words. */
  lemma SeparatorsOnlyExample()
    ensures InitialsOf(Some("-_-")) == "?"
  {
    QuestionMarkFallback(Some("-_-"));
  }

  // ---------------------------------------------------------------- XML escaping

  /** The entities `EscapeXml` substitutes, in the order of its `Replace` calls. */
  const Entities: seq<(char, string)> :=
    [('&', "&amp;"), ('<', "&lt;"), ('>', "&gt;"), ('"', "&quot;"), ('\'', "&apos;")]

  /** Replaces each pair's character by its text, one pair after the other. */
  function ReplaceAll(s: string, es: seq<(char, string)>): string
    decreases |es|
  {
    if |es| == 0 then s else ReplaceAll(ReplaceChar(s, es[0].0, es[0].1), es[1..])
  }

  /** The chained `Replace` calls of `EscapeXml`, "&" first. */
  function Escaped(s: string): string {
    ReplaceAll(s, Entities)
  }

  /** `EscapeXml`: null and the empty string come back as they are. */
  function EscapeXml(s: Option<string>): (r: Option<string>)
    ensures s.None? ==> r.None?
    ensures s.Some? ==> r == Some(Escaped(s.value))
  {
    if s.None? || |s.value| == 0 then s else Some(Escaped(s.value))
  }

  function EscapeChar(c: char): string {
    if c == '&' then "&amp;"
    else if c == '<' then "&lt;"
    else if c == '>' then "&gt;"
    else if c == '"' then "&quot;"
    else if c == '\'' then "&apos;"
    else [c]
  }

  /** Each character replaced by its entity, in one pass. */
  function EscapeEach(s: string): string {
    if |s| == 0 then "" else EscapeChar(s[0]) + EscapeEach(s[1..])
  }

  lemma {:induction false} ReplaceAllConcat(a: string, b: string, es: seq<(char, string)>)
    ensures ReplaceAll(a + b, es) == ReplaceAll(a, es) + ReplaceAll(b, es)
    decreases |es|
  {
    if |es| > 0 {
      ReplaceCharConcat(a, b, es[0].0, es[0].1);
      ReplaceAllConcat(ReplaceChar(a, es[0].0, es[0].1), ReplaceChar(b, es[0].0, es[0].1), es[1..]);
    }
  }

  lemma EscapedConcat(a: string, b: string)
    ensures Escaped(a + b) == Escaped(a) + Escaped(b)
  {
    ReplaceAllConcat(a, b, Entities);
  }

  lemma {:induction false} ReplaceAllAppend(s: string, es1: seq<(char, string)>, es2: seq<(char, string)>)
    ensures ReplaceAll(s, es1 + es2) == ReplaceAll(ReplaceAll(s, es1), es2)
    decreases |es1|
  {
    if |es1| > 0 {
      assert (es1 + es2)[1..] == es1[1..] + es2;
      ReplaceAllAppend(ReplaceChar(s, es1[0].0, es1[0].1), es1[1..], es2);
    } else {
      assert es1 + es2 == es2;
    }
  }

  /** Stages whose character does not occur leave the text alone. */
  lemma {:induction false} ReplaceAllKeeps(s: string, es: seq<(char, string)>)
    requires forall j :: 0 <= j < |es| ==> es[j].0 !in s
    ensures ReplaceAll(s, es) == s
    decreases |es|
  {
    if |es| > 0 {
      ReplaceAllKeeps(s, es[1..]);
    }
  }

  lemma ReplaceSingle(x: char, c: char, rep: string)
    ensures ReplaceChar([x], c, rep) == if x == c then rep else [x]
  {
    assert [x][1..] == "";
  }

  /**
   * Stage `k` turns `[c]` into its text; the earlier stages do not see `c`, and the later
   * ones find none of their characters in that text.
   */
  lemma StageOfChar(c: char, es: seq<(char, string)>, k: nat)
    requires k < |es| && es[k].0 == c
    requires forall j :: 0 <= j < k ==> es[j].0 != c
    requires forall j :: k < j < |es| ==> es[j].0 !in es[k].1
    ensures ReplaceAll([c], es) == es[k].1
  {
    assert es == es[..k] + es[k..];
    ReplaceAllAppend([c], es[..k], es[k..]);
    assert forall j :: 0 <= j < k ==> es[..k][j].0 !in [c];
    ReplaceAllKeeps([c], es[..k]);
    assert forall j :: 0 < j < |es[k..]| ==> es[k..][j] == es[k + j];
    FirstStage(c, es[k..]);
  }

  /** A first stage that matches `[c]` yields its text, which no later stage touches. */
  lemma FirstStage(c: char, es: seq<(char, string)>)
    requires |es| > 0 && es[0].0 == c
    requires forall j :: 0 < j < |es| ==> es[j].0 !in es[0].1
    ensures ReplaceAll([c], es) == es[0].1
  {
    ReplaceSingle(c, c, es[0].1);
    ReplaceAllKeeps(es[0].1, es[1..]);
  }

  /** One character escapes to its entity, or to itself when it is not special. */
  lemma EscapedChar(c: char)
    ensures Escaped([c]) == EscapeChar(c)
  {
    if c == '&' {
      StageOfChar(c, Entities, 0);
    } else if c == '<' {
      StageOfChar(c, Entities, 1);
    } else if c == '>' {
      StageOfChar(c, Entities, 2);
    } else if c == '"' {
      StageOfChar(c, Entities, 3);
    } else if c == '\'' {
      StageOfChar(c, Entities, 4);
    } else {
      ReplaceAllKeeps([c], Entities);
    }
  }

  /**
   * Because "&" is replaced first, the chained replacements never touch an entity an earlier
   * one produced: the result is the one-pass, per-character escape.
   */
  lemma {:induction false} EscapeIsPerChar(s: string)
    ensures Escaped(s) == EscapeEach(s)
  {
    if |s| > 0 {
      assert s == [s[0]] + s[1..];
      EscapedConcat([s[0]], s[1..]);
      EscapedChar(s[0]);
      EscapeIsPerChar(s[1..]);
    }
  }

  /** The escaped text holds no raw `<`, `>`, `"` or `'`. */
  lemma {:induction false} EscapedHasNoMarkup(s: string)
    ensures '<' !in Escaped(s) && '>' !in Escaped(s) && '"' !in Escaped(s) && '\'' !in Escaped(s)
  {
    EscapeIsPerChar(s);
    EscapeEachHasNoMarkup(s);
  }

  lemma {:induction false} EscapeEachHasNoMarkup(s: string)
    ensures '<' !in EscapeEach(s) && '>' !in EscapeEach(s) && '"' !in EscapeEach(s) && '\'' !in EscapeEach(s)
  {
    if |s| > 0 {
      EscapeCharHasNoMarkup(s[0]);
      EscapeEachHasNoMarkup(s[1..]);
    }
  }

  lemma EscapeCharHasNoMarkup(c: char)
    ensures '<' !in EscapeChar(c) && '>' !in EscapeChar(c) && '"' !in EscapeChar(c) && '\'' !in EscapeChar(c)
  {
  }

  /** Text without any of the five special characters is left as it is. */
  lemma PlainTextUnchanged(s: string)
    requires '&' !in s && '<' !in s && '>' !in s && '"' !in s && '\'' !in s
    ensures EscapeXml(Some(s)) == Some(s)
  {
  }

  /** Decoding of the five entities, the inverse of escaping. */
  function Unescape(t: string): string
    decreases |t|
  {
    if |t| == 0 then ""
    else if "&amp;" <= t then "&" + Unescape(t[5..])
    else if "&lt;" <= t then "<" + Unescape(t[4..])
    else if "&gt;" <= t then ">" + Unescape(t[4..])
    else if "&quot;" <= t then "\"" + Unescape(t[6..])
    else if "&apos;" <= t then "'" + Unescape(t[6..])
    else [t[0]] + Unescape(t[1..])
  }

  lemma UnescapeStep(c: char, rest: string)
    ensures Unescape(EscapeChar(c) + rest) == [c] + Unescape(rest)
  {
    var t := EscapeChar(c) + rest;
    var e := EscapeChar(c);
    assert t[..|e|] == e;
    if c == '&' {
      assert t[5..] == rest;
    } else if c == '<' {
      assert t[1] == 'l';
      assert t[4..] == rest;
    } else if c == '>' {
      assert t[1] == 'g';
      assert t[4..] == rest;
    } else if c == '"' {
      assert t[1] == 'q';
      assert t[6..] == rest;
    } else if c == '\'' {
      assert t[1] == 'a' && t[2] == 'p';
      assert t[6..] == rest;
    } else {
      assert t[0] == c && t[1..] == rest;
    }
  }

  /** Escaping loses nothing: decoding the escaped text gives the original back. */
  lemma {:induction false} EscapeRoundTrip(s: string)
    ensures Unescape(Escaped(s)) == s
  {
    EscapeIsPerChar(s);
    EscapeEachRoundTrip(s);
  }

  lemma {:induction false} EscapeEachRoundTrip(s: string)
    ensures Unescape(EscapeEach(s)) == s
  {
    if |s| > 0 {
      UnescapeStep(s[0], EscapeEach(s[1..]));
      EscapeEachRoundTrip(s[1..]);
      assert s == [s[0]] + s[1..];
    }
  }

  // ---------------------------------------------------------------- colours

  /** `{b:X2}`: two upper-case hexadecimal digits. */
  function ByteHex(b: Byte): (r: string)
    ensures |r| == 2 && IsUpperHexDigit(r[0]) && IsUpperHexDigit(r[1])
    ensures 16 * HexValue(r[0]) + HexValue(r[1]) == b
  {
    HexDigitValue(b / 16, true);
    HexDigitValue(b % 16, true);
    [HexDigit(b / 16, true), HexDigit(b % 16, true)]
  }

  /** `ColorFromString`: "#RRGGBB" from the first three bytes of the digest of `s`. */
  function ColorFromString(s: string, sha1: string -> Digest): (c: string)
    ensures |c| == 7 && c[0] == '#'
    ensures forall i :: 1 <= i < 7 ==> IsUpperHexDigit(c[i])
    ensures forall j :: 0 <= j < 3 ==> 16 * HexValue(c[1 + 2 * j]) + HexValue(c[2 + 2 * j]) == sha1(s)[j]
  {
    var d := sha1(s);
    var c := "#" + ByteHex(d[0]) + ByteHex(d[1]) + ByteHex(d[2]);
    assert c[1..3] == ByteHex(d[0]) && c[3..5] == ByteHex(d[1]) && c[5..7] == ByteHex(d[2]);
    assert 16 * HexValue(c[1]) + HexValue(c[2]) == d[0];
    assert 16 * HexValue(c[3]) + HexValue(c[4]) == d[1];
    assert 16 * HexValue(c[5]) + HexValue(c[6]) == d[2];
    c
  }

  /**
   * `Convert.ToInt32(pair, 16)` on two characters; `None` where it throws. The parser accepts
   * one leading '+' sign, so "+F" is 15.
   */
  function PairValue(hi: char, lo: char): (r: Option<int>)
    ensures r.Some? <==> (HexValue(hi) >= 0 || hi == '+') && HexValue(lo) >= 0
    ensures r.Some? && hi != '+' ==> r.value == 16 * HexValue(hi) + HexValue(lo)
    ensures r.Some? && hi == '+' ==> r.value == HexValue(lo)
    ensures r.Some? ==> 0 <= r.value < 256
  {
    if HexValue(lo) < 0 then Option.None
    else if hi == '+' then Some(HexValue(lo))
    else if HexValue(hi) >= 0 then Some(16 * HexValue(hi) + HexValue(lo))
    else Option.None
  }

  /**
   * A light background, one with luminance (0.299 R + 0.587 G + 0.114 B) / 255 above 0.6,
   * stated in exact integer arithmetic.
   */
  predicate IsLight(r: int, g: int, b: int) {
    299 * r + 587 * g + 114 * b > 153000
  }

  predicate WellShaped(hex: Option<string>) {
    hex.Some? && |hex.value| > 0 && StartsWith(hex.value, "#")
    && (|hex.value| == 7 || |hex.value| == 4)
  }

  /**
   * `GetContrastColor`: true for black text. Input that is null, empty, lacks the "#" or has a
   * length other than 4 or 7 gets the default, black; `None` is the exception an invalid
   * digit raises.
   */
  function GetContrastColor(hex: Option<string>): (r: Option<bool>)
    ensures !WellShaped(hex) ==> r == Some(true)
    ensures WellShaped(hex) && |hex.value| == 7 ==>
      (r.Some? <==> (PairValue(hex.value[1], hex.value[2]).Some? && PairValue(hex.value[3], hex.value[4]).Some?
        && PairValue(hex.value[5], hex.value[6]).Some?))
    ensures WellShaped(hex) && |hex.value| == 7 && r.Some? ==>
      r.value == IsLight(PairValue(hex.value[1], hex.value[2]).value, PairValue(hex.value[3], hex.value[4]).value,
        PairValue(hex.value[5], hex.value[6]).value)
    ensures WellShaped(hex) && |hex.value| == 4 ==>
      (r.Some? <==> (HexValue(hex.value[1]) >= 0 && HexValue(hex.value[2]) >= 0 && HexValue(hex.value[3]) >= 0))
  {
    if !WellShaped(hex) then Some(true)
    else
      var v := hex.value;
      var channels :=
        if |v| == 7 then (PairValue(v[1], v[2]), PairValue(v[3], v[4]), PairValue(v[5], v[6]))
        else (PairValue(v[1], v[1]), PairValue(v[2], v[2]), PairValue(v[3], v[3]));
      if channels.0.Some? && channels.1.Some? && channels.2.Some? then
        Some(IsLight(channels.0.value, channels.1.value, channels.2.value))
      else Option.None
  }

  /** Every generated colour parses, and the text colour follows its luminance. */
  lemma ContrastOfGeneratedColor(s: string, sha1: string -> Digest)
    ensures var d := sha1(s);
      GetContrastColor(Some(ColorFromString(s, sha1))) == Some(IsLight(d[0], d[1], d[2]))
  {
    var c := ColorFromString(s, sha1);
    var d := sha1(s);
    assert StartsWith(c, "#");
    assert c[1..3] == ByteHex(d[0]) && c[3..5] == ByteHex(d[1]) && c[5..7] == ByteHex(d[2]);
  }

  /** The shorthand "#RGB" means the same as "#RRGGBB". */
  lemma ShorthandMatchesLongForm(x: char, y: char, z: char)
    ensures GetContrastColor(Some(['#', x, y, z])) == GetContrastColor(Some(['#', x, x, y, y, z, z]))
  {
    assert StartsWith(['#', x, y, z], "#") && StartsWith(['#', x, x, y, y, z, z], "#");
  }

  // ---------------------------------------------------------------- the picture

  /** `shape?.ToLowerInvariant() == "circle"`. */
  predicate UsesCircle(shape: Option<string>) {
    shape.Some? && LowerInvariant(shape.value) == "circle"
  }

  /** "circle" in any mix of cases picks the circle; anything else, null included, the square. */
  lemma CircleInAnyCase(shape: string)
    ensures UsesCircle(Some(shape)) <==> EqualsIgnoreCase(shape, "circle")
  {
    LowerAgreesIgnoringCase(shape, "circle");
    assert LowerInvariant("circle") == "circle";
  }

  /** Decimal text of an `int`. */
  function IntText(n: int): (r: string)
    ensures |r| > 0
  {
    if n < 0 then "-" + NatToString(-n) else NatToString(n)
  }

  /** `(int)Math.Round(size * 0.5)`: half the size, a tie going to the even neighbour. */
  function FontSize(size: int): (f: int)
    ensures size % 2 == 0 ==> 2 * f == size
    ensures size % 2 != 0 ==> (2 * f == size - 1 || 2 * f == size + 1) && f % 2 == 0
  {
    var q := size / 2;
    if size % 2 == 0 || q % 2 == 0 then q else q + 1
  }

  /** The culture-formatted text of the two floating-point quantities the picture uses. */
  datatype FloatTexts = FloatTexts(half: string, corner: string)

  /** Colours, initials and size of one picture. */
  datatype Avatar = Avatar(background: string, textColor: string, initials: string)

  /** What `GenerateSvg` computes before it writes: the initials, the background and the text colour. */
  function AvatarOf(fullName: Option<string>, sha1: string -> Digest): (a: Avatar)
    ensures a.initials == InitialsOf(fullName)
    ensures a.background == ColorFromString(EffectiveName(fullName), sha1)
    ensures var d := sha1(EffectiveName(fullName));
      a.textColor == (if IsLight(d[0], d[1], d[2]) then "#000000" else "#FFFFFF")
  {
    var name := EffectiveName(fullName);
    var bg := ColorFromString(name, sha1);
    ContrastOfGeneratedColor(name, sha1);
    var black := GetContrastColor(Some(bg)).value;
    Avatar(bg, if black then "#000000" else "#FFFFFF", InitialsOf(fullName))
  }

  function SvgOpen(size: int): string {
    var s := IntText(size);
    "<svg xmlns=\"http://www.w3.org/2000/svg\" width=\"" + s + "\" height=\"" + s
      + "\" viewBox=\"0 0 " + s + " " + s + "\">"
  }

  function CircleLine(half: string, fill: string): string {
    "  <circle " + CircleAttributes(half, fill)
  }

  function CircleAttributes(half: string, fill: string): string {
    "cx=\"" + half + "\" cy=\"" + half + "\" r=\"" + half + "\" fill=\"" + fill + "\" />"
  }

  function RectLine(size: int, corner: string, fill: string): string {
    "  <rect " + RectAttributes(size, corner, fill)
  }

  function RectAttributes(size: int, corner: string, fill: string): string {
    var s := IntText(size);
    "x=\"0\" y=\"0\" width=\"" + s + "\" height=\"" + s + "\" rx=\"" + corner
      + "\" ry=\"" + corner + "\" fill=\"" + fill + "\" />"
  }

  const TextOpen := "  <text x=\"50%\" y=\"50%\" text-anchor=\"middle\" dominant-baseline=\"central\" "
  const FontFamily := "        font-family=\"system-ui, -apple-system, 'Segoe UI', Roboto, 'Helvetica Neue', Arial, sans-serif\" "
  const SvgClose := "</svg>"

  function TextPrefix(fontSize: int, fill: string): string {
    "        font-size=\"" + IntText(fontSize) + "px\" font-weight=\"600\" fill=\"" + fill + "\">"
  }

  /** The text of a picture, line by line, before line ends are added. */
  function SvgLines(a: Avatar, size: int, shape: Option<string>, floats: FloatTexts): (lines: seq<string>)
    ensures |lines| == 6 && lines[0] == SvgOpen(size) && lines[5] == SvgClose
    ensures lines[1] == (if UsesCircle(shape) then CircleLine(floats.half, a.background)
                         else RectLine(size, floats.corner, a.background))
    ensures lines[4] == TextPrefix(FontSize(size), a.textColor) + Escaped(a.initials) + "</text>"
  {
    [SvgOpen(size),
     if UsesCircle(shape) then CircleLine(floats.half, a.background) else RectLine(size, floats.corner, a.background),
     TextOpen, FontFamily,
     TextPrefix(FontSize(size), a.textColor) + Escaped(a.initials) + "</text>",
     SvgClose]
  }

  /** `Environment.NewLine` on the Linux host the service runs on. */
  const NewLine := "\n"

  /** Lines joined as successive `AppendLine` calls leave them: each call adds a line at the end. */
  function Render(lines: seq<string>): string {
    if |lines| == 0 then "" else Render(lines[..|lines| - 1]) + lines[|lines| - 1] + NewLine
  }

  /** The shape element is a circle exactly when the shape names one, and a square otherwise. */
  lemma ShapeChoice(a: Avatar, size: int, shape: Option<string>, floats: FloatTexts)
    ensures var line := SvgLines(a, size, shape, floats)[1];
      (StartsWith(line, "  <circle ") <==> UsesCircle(shape))
      && (StartsWith(line, "  <rect ") <==> !UsesCircle(shape))
  {
    ShapeLineStarts(UsesCircle(shape), floats.half, size, floats.corner, a.background);
  }

  lemma ShapeLineStarts(circle: bool, half: string, size: int, corner: string, fill: string)
    ensures var line := if circle then CircleLine(half, fill) else RectLine(size, corner, fill);
      (StartsWith(line, "  <circle ") <==> circle) && (StartsWith(line, "  <rect ") <==> !circle)
  {
    if circle {
      assert CircleLine(half, fill)[3] == 'c';
    } else {
      assert RectLine(size, corner, fill)[3] == 'r';
    }
  }

  /**
   * The initials reach the picture escaped: the text element's content is the escaped
   * initials, which hold no markup and decode back to the initials.
   */
  lemma InitialsEscapedInText(fullName: Option<string>, sha1: string -> Digest, size: int,
                              shape: Option<string>, floats: FloatTexts)
    ensures var a := AvatarOf(fullName, sha1);
      var content := Escaped(a.initials);
      && SvgLines(a, size, shape, floats)[4] == TextPrefix(FontSize(size), a.textColor) + content + "</text>"
      && '<' !in content && '>' !in content
      && Unescape(content) == InitialsOf(fullName)
  {
    var a := AvatarOf(fullName, sha1);
    EscapedHasNoMarkup(a.initials);
    EscapeRoundTrip(a.initials);
  }

  /** `StringBuilder` as `GenerateSvg` uses it. */
  class StringBuilder {
    var text: string

    constructor ()
      ensures text == ""
    {
      text := "";
    }

    method AppendLine(line: string)
      modifies this
      ensures text == old(text) + line + NewLine
    {
      text := text + line + NewLine;
    }
  }

  lemma RenderSix(l0: string, l1: string, l2: string, l3: string, l4: string, l5: string)
    ensures Render([l0, l1, l2, l3, l4, l5])
      == "" + l0 + NewLine + l1 + NewLine + l2 + NewLine + l3 + NewLine + l4 + NewLine + l5 + NewLine
  {
    assert [l0][..0] == [];
    assert Render([l0]) == "" + l0 + NewLine;
    assert [l0, l1][..1] == [l0];
    assert Render([l0, l1]) == Render([l0]) + l1 + NewLine;
    assert [l0, l1, l2][..2] == [l0, l1];
    assert Render([l0, l1, l2]) == Render([l0, l1]) + l2 + NewLine;
    assert [l0, l1, l2, l3][..3] == [l0, l1, l2];
    assert Render([l0, l1, l2, l3]) == Render([l0, l1, l2]) + l3 + NewLine;
    assert [l0, l1, l2, l3, l4][..4] == [l0, l1, l2, l3];
    assert Render([l0, l1, l2, l3, l4]) == Render([l0, l1, l2, l3]) + l4 + NewLine;
    assert [l0, l1, l2, l3, l4, l5][..5] == [l0, l1, l2, l3, l4];
  }

  /**
   * `GenerateSvg`. `sha1` is the digest of the UTF-8 bytes of a text and `floats` the text of
   * `size / 2.0` and `Math.Round(size * 0.08)`.
   */
  method GenerateSvg(fullName: Option<string>, size: Int32, shape: Option<string>,
                     sha1: string -> Digest, floats: FloatTexts) returns (svg: string)
    ensures svg == Render(SvgLines(AvatarOf(fullName, sha1), size, shape, floats))
  {
    var name := if IsNullOrWhiteSpace(fullName) then "?" else fullName.value;
    var initials := Initials(Tokens(name));
    var bg := ColorFromString(name, sha1);
    ContrastOfGeneratedColor(name, sha1);
    var textColor := if GetContrastColor(Some(bg)).value then "#000000" else "#FFFFFF";
    svg := WriteSvg(Avatar(bg, textColor, initials), size, shape, floats);
  }

  /** The `AppendLine` sequence of `GenerateSvg`, once colours and initials are known. */
  method WriteSvg(a: Avatar, size: Int32, shape: Option<string>, floats: FloatTexts) returns (svg: string)
    ensures svg == Render(SvgLines(a, size, shape, floats))
  {
    var fontSize := FontSize(size);
    var sb := new StringBuilder();
    sb.AppendLine(SvgOpen(size));
    var shapeLine;
    if UsesCircle(shape) {
      shapeLine := CircleLine(floats.half, a.background);
    } else {
      shapeLine := RectLine(size, floats.corner, a.background);
    }
    sb.AppendLine(shapeLine);
    sb.AppendLine(TextOpen);
    sb.AppendLine(FontFamily);
    var textLine := TextPrefix(fontSize, a.textColor) + Escaped(a.initials) + "</text>";
    sb.AppendLine(textLine);
    sb.AppendLine(SvgClose);
    RenderSix(SvgOpen(size), shapeLine, TextOpen, FontFamily, textLine, SvgClose);
    svg := sb.text;
  }
}
