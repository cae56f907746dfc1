/**
 * The string operations the editor relies on: ASCII case mapping
 * (`toLowerCase` / `toUpperCase`), substring search (`includes`), the
 * whitespace test behind `trim()`, decimal rendering of port numbers
 * (`output${n}`) and the first digit run of a port id (`/\d+/`).
 */
module Text {

  predicate IsDigit(c: char) {
    '0' <= c <= '9'
  }

  predicate NoDigits(s: string) {
    forall i :: 0 <= i < |s| ==> !IsDigit(s[i])
  }

  predicate AllDigits(s: string) {
    forall i :: 0 <= i < |s| ==> IsDigit(s[i])
  }

  function LowerChar(c: char): char {
    if 'A' <= c <= 'Z' then (c as int + 32) as char else c
  }

  function UpperChar(c: char): char {
    if 'a' <= c <= 'z' then (c as int - 32) as char else c
  }

  /** `toLowerCase()`, on the ASCII letters. */
  function Lower(s: string): string {
    seq(|s|, i requires 0 <= i < |s| => LowerChar(s[i]))
  }

  /** `toUpperCase()`, on the ASCII letters. */
  function Upper(s: string): string {
    seq(|s|, i requires 0 <= i < |s| => UpperChar(s[i]))
  }

  /** Lower-casing is a projection: a lower-cased string has no capitals left. */
  lemma LowerIdempotent(s: string)
    ensures Lower(Lower(s)) == Lower(s)
    ensures forall i :: 0 <= i < |Lower(s)| ==> !('A' <= Lower(s)[i] <= 'Z')
  {
  }

  /** Upper-casing first does not change the lower-cased string. */
  lemma LowerOfUpper(s: string)
    ensures Lower(Upper(s)) == Lower(s)
  {
  }

  /** `sub` occurs in `s` starting at index `i`. */
  predicate OccursAt(s: string, sub: string, i: nat) {
    i + |sub| <= |s| && s[i..i + |sub|] == sub
  }

  /** `s.includes(sub)`. */
  predicate Contains(s: string, sub: string) {
    exists i: nat | i <= |s| :: OccursAt(s, sub, i)
  }

  /**
   * The characters `String.prototype.trim` strips: the ECMAScript
   * WhiteSpace set (tab, vertical tab, form feed, the Zs space separators,
   * the byte order mark) and the LineTerminator set.
   */
  predicate IsJsSpace(c: char) {
    || c == '\t' || c == '\n' || c == '\U{000B}' || c == '\U{000C}' || c == '\r' || c == ' '
    || c == '\U{00A0}' || c == '\U{1680}' || ('\U{2000}' <= c <= '\U{200A}')
    || c == '\U{2028}' || c == '\U{2029}' || c == '\U{202F}' || c == '\U{205F}'
    || c == '\U{3000}' || c == '\U{FEFF}'
  }

  /** `!s.trim()`: the trimmed string is empty exactly when every character is trimmed. */
  predicate IsBlank(s: string) {
    forall i :: 0 <= i < |s| ==> IsJsSpace(s[i])
  }

  /** Case mapping neither creates nor removes whitespace, so it keeps a query blank or not blank. */
  lemma BlankIgnoresCase(s: string)
    ensures IsBlank(Lower(s)) <==> IsBlank(s)
    ensures IsBlank(Upper(s)) <==> IsBlank(s)
  {
    forall i | 0 <= i < |s|
      ensures IsJsSpace(Lower(s)[i]) <==> IsJsSpace(s[i])
      ensures IsJsSpace(Upper(s)[i]) <==> IsJsSpace(s[i])
    {
      assert Lower(s)[i] == LowerChar(s[i]) && Upper(s)[i] == UpperChar(s[i]);
    }
  }

  function DigitChar(d: nat): char
    requires d < 10
  {
    ('0' as int + d) as char
  }

  function DigitValue(c: char): nat
    requires IsDigit(c)
  {
    c as int - '0' as int
  }

  /** Decimal rendering of a natural number, as in a template literal. */
  function NatToString(n: nat): (s: string)
    ensures |s| > 0 && AllDigits(s)
    decreases n
  {
    if n < 10 then [DigitChar(n)] else NatToString(n / 10) + [DigitChar(n % 10)]
  }

  /** The number a run of decimal digits denotes. */
  function DigitsValue(s: string): nat
    requires AllDigits(s)
    decreases |s|
  {
    if |s| == 0 then 0 else DigitsValue(s[..|s| - 1]) * 10 + DigitValue(s[|s| - 1])
  }

  /** Reading back a rendered number gives the number. */
  lemma {:induction false} NatToStringRoundTrip(n: nat)
    ensures DigitsValue(NatToString(n)) == n
    decreases n
  {
    if n >= 10 {
      var s := NatToString(n);
      assert s[..|s| - 1] == NatToString(n / 10);
      NatToStringRoundTrip(n / 10);
    }
  }

  /** Distinct numbers render to distinct strings. */
  lemma NatToStringInjective(m: nat, n: nat)
    requires NatToString(m) == NatToString(n)
    ensures m == n
  {
    NatToStringRoundTrip(m);
    NatToStringRoundTrip(n);
  }

  /** The longest prefix of `s` made of digits. */
  function DigitPrefix(s: string): (r: string)
    ensures AllDigits(r) && |r| <= |s|
  {
    if |s| > 0 && IsDigit(s[0]) then [s[0]] + DigitPrefix(s[1..]) else ""
  }

  /** `DigitPrefix` is a prefix of `s`, and the character after it (if any) is not a digit. */
  lemma {:induction false} DigitPrefixSpec(s: string)
    ensures DigitPrefix(s) == s[..|DigitPrefix(s)|]
    ensures |DigitPrefix(s)| == |s| || !IsDigit(s[|DigitPrefix(s)|])
    decreases |s|
  {
    if |s| > 0 && IsDigit(s[0]) {
      DigitPrefixSpec(s[1..]);
    }
  }

  /** The index of the first digit of `s`, or |s| when it has none. */
  function FirstDigitIndex(s: string): (i: nat)
    ensures i <= |s|
  {
    if |s| == 0 || IsDigit(s[0]) then 0 else FirstDigitIndex(s[1..]) + 1
  }

  /** No digit comes before `FirstDigitIndex`, and a digit stands at it unless it is |s|. */
  lemma {:induction false} FirstDigitIndexSpec(s: string)
    ensures NoDigits(s[..FirstDigitIndex(s)])
    ensures FirstDigitIndex(s) < |s| ==> IsDigit(s[FirstDigitIndex(s)])
    decreases |s|
  {
    if |s| > 0 && !IsDigit(s[0]) {
      var j := FirstDigitIndex(s[1..]);
      FirstDigitIndexSpec(s[1..]);
      assert s[..j + 1] == [s[0]] + s[1..][..j];
    }
  }

  /** The text matched by `/\d+/`, or "" when `s` holds no digit. */
  function FirstDigitRun(s: string): (r: string)
    ensures AllDigits(r)
  {
    var i := FirstDigitIndex(s);
    if i == |s| then "" else DigitPrefix(s[i..])
  }

  /**
   * `FirstDigitRun` is the leftmost maximal run of digits: empty exactly
   * when `s` has no digit, otherwise found at the first digit and not
   * followed by another digit.
   */
  lemma FirstDigitRunSpec(s: string)
    ensures FirstDigitRun(s) == "" <==> NoDigits(s)
    ensures FirstDigitRun(s) != "" ==> OccursAt(s, FirstDigitRun(s), FirstDigitIndex(s))
    ensures FirstDigitRun(s) != "" ==>
      var end := FirstDigitIndex(s) + |FirstDigitRun(s)|; end == |s| || !IsDigit(s[end])
  {
    var i := FirstDigitIndex(s);
    FirstDigitIndexSpec(s);
    if i == |s| {
      assert s[..i] == s;
    } else {
      var r := DigitPrefix(s[i..]);
      DigitPrefixSpec(s[i..]);
      assert s[i..][0] == s[i];
      assert s[i..i + |r|] == s[i..][..|r|];
    }
  }

  /** A digit-free prefix does not change the first digit run. */
  lemma {:induction false} FirstDigitIndexSkipsPrefix(p: string, s: string)
    requires NoDigits(p)
    ensures FirstDigitIndex(p + s) == |p| + FirstDigitIndex(s)
    decreases |p|
  {
    if |p| > 0 {
      assert (p + s)[1..] == p[1..] + s;
      FirstDigitIndexSkipsPrefix(p[1..], s);
    } else {
      assert p + s == s;
    }
  }

  lemma FirstDigitRunSkipsPrefix(p: string, s: string)
    requires NoDigits(p)
    ensures FirstDigitRun(p + s) == FirstDigitRun(s)
  {
    FirstDigitIndexSkipsPrefix(p, s);
    var i := FirstDigitIndex(s);
    assert (p + s)[|p| + i..] == s[i..];
  }

  lemma {:induction false} DigitPrefixOfDigits(s: string)
    requires AllDigits(s)
    ensures DigitPrefix(s) == s
    decreases |s|
  {
    if |s| > 0 {
      DigitPrefixOfDigits(s[1..]);
    }
  }

  /**
   * The rank a port id gets when fork edges are sorted: the numeric value
   * of its first digit run, or -1 when it has none (the empty string
   * sorts before every number under `localeCompare` with `numeric: true`).
   */
  function PortRank(port: string): int {
    var run := FirstDigitRun(port);
    if run == "" then -1 else DigitsValue(run)
  }

  /** A port id built as `${prefix}${n}` from a digit-free prefix ranks as n. */
  lemma PortRankOfName(prefix: string, n: nat)
    requires NoDigits(prefix)
    ensures PortRank(prefix + NatToString(n)) == n
  {
    var s := NatToString(n);
    FirstDigitRunSkipsPrefix(prefix, s);
    DigitPrefixOfDigits(s);
    assert FirstDigitRun(s) == s;
    NatToStringRoundTrip(n);
  }
}
