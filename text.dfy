/**
 * The string primitives the engine relies on: whitespace tests
 * (`string.IsNullOrWhiteSpace`), the case-insensitive comparison
 * (`StringComparison.OrdinalIgnoreCase`), `Trim`, `ToLowerInvariant`,
 * `string.Join`, `String.Split` with `RemoveEmptyEntries | TrimEntries`,
 * `int.ToString()` and `int.TryParse`.
 *
 * Case folding is modelled on ASCII letters only; every property the model
 * proves about case-insensitive matching uses nothing but the fact that two
 * strings match exactly when their folds are equal.
 */
module Text {
  import opened Wrappers

  /** `char.IsWhiteSpace`: Unicode categories Zs, Zl, Zp, U+0009..U+000D and U+0085. */
  predicate IsWhiteSpace(c: char) {
    var n := c as int;
    n == 0x20 || (0x09 <= n <= 0x0D) || n == 0x85 || n == 0xA0 || n == 0x1680
    || (0x2000 <= n <= 0x200A) || n == 0x2028 || n == 0x2029 || n == 0x202F
    || n == 0x205F || n == 0x3000
  }

  /** `string.IsNullOrWhiteSpace` of a non-null string. */
  predicate IsWhiteSpaceOnly(s: string) {
    forall i :: 0 <= i < |s| ==> IsWhiteSpace(s[i])
  }

  /** `string.IsNullOrWhiteSpace` of a nullable string. */
  predicate IsBlank(s: Option<string>) {
    s.None? || IsWhiteSpaceOnly(s.value)
  }

  /** A string holding one character that is not whitespace is not blank. */
  lemma NotBlankWitness(s: string, i: int)
    requires 0 <= i < |s| && !IsWhiteSpace(s[i])
    ensures !IsWhiteSpaceOnly(s)
  {
  }

  function UpperChar(c: char): char {
    if 'a' <= c <= 'z' then (c as int - 32) as char else c
  }

  function LowerChar(c: char): char {
    if 'A' <= c <= 'Z' then (c as int + 32) as char else c
  }

  /** The canonical form under `OrdinalIgnoreCase`. */
  function Fold(s: string): string {
    seq(|s|, i requires 0 <= i < |s| => UpperChar(s[i]))
  }

  /** `Fold` lifted to nullable strings: null stays null. */
  function FoldOpt(s: Option<string>): Option<string> {
    match s
    case None => None
    case Some(v) => Some(Fold(v))
  }

  /** `string.Equals(a, b, StringComparison.OrdinalIgnoreCase)`: two nulls are equal, null and a string are not. */
  predicate EqualsIgnoreCase(a: Option<string>, b: Option<string>) {
    FoldOpt(a) == FoldOpt(b)
  }

  /** `ToLowerInvariant`. */
  function ToLower(s: string): string {
    seq(|s|, i requires 0 <= i < |s| => LowerChar(s[i]))
  }

  function TrimStart(s: string): (r: string)
    decreases |s|
  {
    if |s| > 0 && IsWhiteSpace(s[0]) then TrimStart(s[1..]) else s
  }

  function TrimEnd(s: string): (r: string)
    decreases |s|
  {
    if |s| > 0 && IsWhiteSpace(s[|s| - 1]) then TrimEnd(s[..|s| - 1]) else s
  }

  /** `string.Trim()`: strips leading and trailing whitespace. */
  function Trim(s: string): string {
    TrimEnd(TrimStart(s))
  }

  /** `string.Join(sep, parts)`. */
  function Join(sep: string, parts: seq<string>): string
    decreases |parts|
  {
    if |parts| == 0 then ""
    else if |parts| == 1 then parts[0]
    else parts[0] + sep + Join(sep, parts[1..])
  }

  function DigitChar(d: nat): (c: char)
    requires d < 10
    ensures '0' <= c <= '9'
  {
    ('0' as int + d) as char
  }

  function NatToString(n: nat): (r: string)
    decreases n
  {
    if n < 10 then [DigitChar(n)] else NatToString(n / 10) + [DigitChar(n % 10)]
  }

  /** `int.ToString()` with `-` as the negative sign (the invariant culture's): an optional '-' and decimal digits. */
  function IntToString(n: int): string {
    if n < 0 then "-" + NatToString(-n) else NatToString(n)
  }

  /** The decimal form of an integer always ends in a digit, so it is never blank. */
  lemma {:induction false} IntToStringNotBlank(n: int)
    ensures |IntToString(n)| > 0
    ensures '0' <= IntToString(n)[|IntToString(n)| - 1] <= '9'
    ensures !IsWhiteSpaceOnly(IntToString(n))
  {
    var s := IntToString(n);
    var m: nat := if n < 0 then -n else n;
    var d := NatToString(m);
    assert d[|d| - 1] == DigitChar(m % 10);
    assert s == (if n < 0 then "-" else "") + d;
    assert s[|s| - 1] == d[|d| - 1];
    NotBlankWitness(s, |s| - 1);
  }

  predicate IsDigit(c: char) {
    '0' <= c <= '9'
  }

  function DigitsValue(s: string): nat
    requires forall i :: 0 <= i < |s| ==> IsDigit(s[i])
    decreases |s|
  {
    if |s| == 0 then 0
    else
      assert IsDigit(s[|s| - 1]);
      DigitsValue(s[..|s| - 1]) * 10 + (s[|s| - 1] as int - '0' as int)
  }

  const Int32Min: int := -2147483648
  const Int32Max: int := 2147483647

  /**
   * `int.TryParse` under `NumberStyles.Integer` on an already trimmed string:
   * an optional sign, then at least one ASCII digit, within the 32-bit range.
   */
  function ParseInt(s: string): Option<int> {
    var neg := |s| > 0 && s[0] == '-';
    var body := if |s| > 0 && (s[0] == '+' || s[0] == '-') then s[1..] else s;
    if |body| == 0 || !(forall i :: 0 <= i < |body| ==> IsDigit(body[i])) then None
    else
      var mag: int := DigitsValue(body);
      var v := if neg then -mag else mag;
      if Int32Min <= v <= Int32Max then Some(v) else None
  }

  /** `String.Split(sep)` with no options: the pieces between separators, possibly empty. */
  function Split(s: string, sep: char): (r: seq<string>)
    ensures |r| >= 1
    decreases |s|
  {
    if |s| == 0 then [""]
    else
      var rest := Split(s[1..], sep);
      if s[0] == sep then [""] + rest else [[s[0]] + rest[0]] + rest[1..]
  }

  /** No piece produced by `Split` contains the separator. */
  lemma {:induction false} SplitPiecesLackSeparator(s: string, sep: char)
    ensures forall p :: p in Split(s, sep) ==> sep !in p
  {
    if |s| > 0 {
      SplitPiecesLackSeparator(s[1..], sep);
    }
  }

  /** Trims every piece and drops the pieces left empty. */
  function TrimAndDropEmpty(parts: seq<string>): (r: seq<string>)
    decreases |parts|
  {
    if |parts| == 0 then []
    else
      var t := Trim(parts[0]);
      (if |t| == 0 then [] else [t]) + TrimAndDropEmpty(parts[1..])
  }

  /** `s.Split(sep, StringSplitOptions.RemoveEmptyEntries | StringSplitOptions.TrimEntries)`. */
  function SplitTrimmed(s: string, sep: char): seq<string> {
    TrimAndDropEmpty(Split(s, sep))
  }
}
