/**
 * The JavaScript string and number operations the application relies on.
 *
 * A JavaScript string is a sequence of UTF-16 code units; here one `char` stands for one
 * code unit, which is exact for every string of the Basic Multilingual Plane. A JavaScript
 * number that the code obtains from `parseInt` is an `Option<int>`, `None` standing for NaN.
 */
module JsStrings {
  import opened Wrappers

  /** A string-valued JavaScript expression used as a condition: absent and "" are falsy. */
  predicate Truthy(s: Option<string>) {
    s.Some? && s.value != ""
  }

  /** `${v}` for a possibly absent string: an absent value prints as "undefined". */
  function Show(s: Option<string>): string {
    if s.Some? then s.value else "undefined"
  }

  /** `${v ? prefix + v : ''}`: the prefixed value when it is truthy, nothing otherwise. */
  function Mention(prefix: string, v: Option<string>): string {
    if Truthy(v) then prefix + v.value else ""
  }

  // ---------------------------------------------------------------------------------------
  // Case

  function LowerChar(c: char): char {
    if 'A' <= c <= 'Z' then (c as int + 32) as char else c
  }

  /** `s.toLowerCase()` on the ASCII letters; every other character is kept. */
  function Lower(s: string): string {
    seq(|s|, i requires 0 <= i < |s| => LowerChar(s[i]))
  }

  predicate NoUpper(s: string) {
    forall i :: 0 <= i < |s| ==> !('A' <= s[i] <= 'Z')
  }

  // ---------------------------------------------------------------------------------------
  // Searching

  /** `sub` occurs in `s` starting at index `i`. */
  predicate OccursAt(s: string, sub: string, i: nat) {
    i + |sub| <= |s| && s[i..i + |sub|] == sub
  }

  /** `s.indexOf(sub, i)`: the first occurrence of `sub` at or after `i`. */
  function IndexFrom(s: string, sub: string, i: nat): (r: Option<nat>)
    decreases |s| - i
    ensures r.Some? ==> i <= r.value && OccursAt(s, sub, r.value)
    ensures r.Some? ==> forall j: nat :: i <= j < r.value ==> !OccursAt(s, sub, j)
    ensures r.None? ==> forall j: nat :: i <= j ==> !OccursAt(s, sub, j)
  {
    if i + |sub| > |s| then None
    else if OccursAt(s, sub, i) then Some(i)
    else IndexFrom(s, sub, i + 1)
  }

  /** `s.indexOf(sub)`, `None` standing for -1. */
  function IndexOf(s: string, sub: string): Option<nat> {
    IndexFrom(s, sub, 0)
  }

  /** `s.includes(sub)`. */
  predicate Contains(s: string, sub: string) {
    IndexOf(s, sub).Some?
  }

  /** The first occurrence is the one `IndexOf` reports. */
  lemma IndexOfIs(s: string, sub: string, i: nat)
    requires OccursAt(s, sub, i)
    requires forall j: nat :: j < i ==> !OccursAt(s, sub, j)
    ensures IndexOf(s, sub) == Some(i)
  {
  }

  /** `includes` holds exactly when there is an occurrence somewhere. */
  lemma ContainsIff(s: string, sub: string)
    ensures Contains(s, sub) <==> exists i: nat :: OccursAt(s, sub, i)
  {
    if Contains(s, sub) {
      assert OccursAt(s, sub, IndexOf(s, sub).value);
    }
  }

  lemma ContainsInfix(a: string, b: string, c: string)
    ensures Contains(a + b + c, b)
  {
    var s := a + b + c;
    assert s[|a|..|a| + |b|] == b;
    assert OccursAt(s, b, |a|);
    ContainsIff(s, b);
  }

  /** An occurrence in either half is an occurrence in the concatenation. */
  lemma ContainsExtended(a: string, b: string, sub: string)
    ensures Contains(a, sub) ==> Contains(a + b, sub)
    ensures Contains(b, sub) ==> Contains(a + b, sub)
  {
    var s := a + b;
    if Contains(a, sub) {
      var i := IndexOf(a, sub).value;
      assert s[i..i + |sub|] == a[i..i + |sub|];
      assert OccursAt(s, sub, i);
      ContainsIff(s, sub);
    }
    if Contains(b, sub) {
      var i := IndexOf(b, sub).value;
      assert s[|a| + i..|a| + i + |sub|] == b[i..i + |sub|];
      assert OccursAt(s, sub, |a| + i);
      ContainsIff(s, sub);
    }
  }

  /** A one-character needle occurs exactly where that character stands. */
  lemma OccursAtChar(s: string, c: char, j: nat)
    ensures OccursAt(s, [c], j) <==> j < |s| && s[j] == c
  {
    if j < |s| {
      assert s[j..j + 1] == [s[j]];
    }
  }

  lemma NoCharNoOccurrence(s: string, c: char)
    requires forall i :: 0 <= i < |s| ==> s[i] != c
    ensures IndexOf(s, [c]) == None
  {
    var r := IndexOf(s, [c]);
    if r.Some? {
      OccursAtChar(s, c, r.value);
    }
  }

  // ---------------------------------------------------------------------------------------
  // Splitting, joining, replacing, trimming

  /** `s.split(sep)` for a non-empty separator: the pieces between occurrences. */
  function Split(s: string, sep: string): (parts: seq<string>)
    requires |sep| > 0
    decreases |s|
    ensures |parts| >= 1
    ensures IndexOf(s, sep).Some? ==> |parts| >= 2
  {
    match IndexOf(s, sep)
    case None => [s]
    case Some(i) => [s[..i]] + Split(s[i + |sep|..], sep)
  }

  /** Splitting at a character that occurs once, between two pieces free of it, gives back the pieces. */
  lemma SplitTwo(a: string, b: string, c: char)
    requires forall i :: 0 <= i < |a| ==> a[i] != c
    requires forall i :: 0 <= i < |b| ==> b[i] != c
    ensures Split(a + [c] + b, [c]) == [a, b]
  {
    var s := a + [c] + b;
    OccursAtChar(s, c, |a|);
    forall j: nat | j < |a| ensures !OccursAt(s, [c], j) {
      OccursAtChar(s, c, j);
    }
    IndexOfIs(s, [c], |a|);
    assert s[..|a|] == a;
    assert s[|a| + 1..] == b;
    NoCharNoOccurrence(b, c);
  }

  /** The first piece of a split is a prefix, all of `s` when the separator does not occur. */
  lemma FirstPieceIsPrefix(s: string, sep: string)
    requires |sep| > 0
    ensures Split(s, sep)[0] <= s
    ensures IndexOf(s, sep).None? ==> Split(s, sep)[0] == s
    ensures IndexOf(s, sep).Some? ==> Split(s, sep)[0] == s[..IndexOf(s, sep).value]
  {
  }

  /** The second piece of a split is the first piece of what follows the first separator. */
  lemma SecondPiece(s: string, sep: string)
    requires |sep| > 0 && IndexOf(s, sep).Some?
    ensures IndexOf(s, sep).value + |sep| <= |s|
    ensures Split(s, sep)[1] == Split(s[IndexOf(s, sep).value + |sep|..], sep)[0]
  {
  }

  /** The first piece of a split at a single character does not contain that character. */
  lemma FirstPieceLacksSeparator(s: string, c: char)
    ensures Split(s, [c])[0] <= s
    ensures forall i :: 0 <= i < |Split(s, [c])[0]| ==> Split(s, [c])[0][i] != c
  {
    var first := Split(s, [c])[0];
    forall i | 0 <= i < |first| ensures first[i] != c {
      OccursAtChar(s, c, i);
      match IndexOf(s, [c])
      case None =>
      case Some(k) =>
        assert first == s[..k];
    }
  }

  /** `parts.join(sep)`. */
  function Join(parts: seq<string>, sep: string): string
    decreases |parts|
  {
    if |parts| == 0 then ""
    else if |parts| == 1 then parts[0]
    else parts[0] + sep + Join(parts[1..], sep)
  }

  /** A separator cannot start inside a leading piece that lacks its first character. */
  lemma NoOccurrenceInPiece(p: string, sep: string, s: string)
    requires |sep| > 0 && p <= s
    requires forall i :: 0 <= i < |p| ==> p[i] != sep[0]
    ensures forall j: nat :: j < |p| ==> !OccursAt(s, sep, j)
  {
    forall j: nat | j < |p| ensures !OccursAt(s, sep, j) {
      assert s[j] == p[j];
      if j + |sep| <= |s| {
        assert s[j..j + |sep|][0] == s[j];
      }
    }
  }

  /** Splitting a piece free of the separator, the separator and a rest: the piece comes first. */
  lemma SplitAtPiece(p: string, sep: string, rest: string)
    requires |sep| > 0
    requires forall i :: 0 <= i < |p| ==> p[i] != sep[0]
    ensures Split(p + sep + rest, sep) == [p] + Split(rest, sep)
  {
    var s := p + sep + rest;
    NoOccurrenceInPiece(p, sep, s);
    assert s[|p|..|p| + |sep|] == sep;
    IndexOfIs(s, sep, |p|);
    assert s[..|p|] == p;
    assert s[|p| + |sep|..] == rest;
  }

  /** Splitting a join gives the parts back when no part holds the separator's first character. */
  lemma {:induction false} SplitJoin(parts: seq<string>, sep: string)
    requires |sep| > 0 && |parts| >= 1
    requires forall k, i :: 0 <= k < |parts| && 0 <= i < |parts[k]| ==> parts[k][i] != sep[0]
    ensures Split(Join(parts, sep), sep) == parts
    decreases |parts|
  {
    var p := parts[0];
    assert forall i :: 0 <= i < |p| ==> p[i] != sep[0];
    if |parts| == 1 {
      NoOccurrenceInPiece(p, sep, p);
      assert IndexOf(p, sep).None?;
    } else {
      SplitAtPiece(p, sep, Join(parts[1..], sep));
      SplitJoin(parts[1..], sep);
      assert parts == [p] + parts[1..];
    }
  }

  /** `s.replace(pattern, replacement)` with a string pattern: only the first occurrence. */
  function ReplaceFirst(s: string, pattern: string, replacement: string): string {
    match IndexOf(s, pattern)
    case None => s
    case Some(i) => s[..i] + replacement + s[i + |pattern|..]
  }

  /** ECMAScript WhiteSpace and LineTerminator code points, which `trim` and `parseInt` skip. */
  predicate IsWhiteSpace(c: char) {
    var u := c as int;
    u == 0x09 || u == 0x0A || u == 0x0B || u == 0x0C || u == 0x0D || u == 0x20 ||
    u == 0xA0 || u == 0x1680 || (0x2000 <= u <= 0x200A) || u == 0x2028 || u == 0x2029 ||
    u == 0x202F || u == 0x205F || u == 0x3000 || u == 0xFEFF
  }

  function TrimStart(s: string): (r: string)
    decreases |s|
  {
    if |s| > 0 && IsWhiteSpace(s[0]) then TrimStart(s[1..]) else s
  }

  function TrimEnd(s: string): (r: string)
    decreases |s|
  {
    if |s| > 0 && IsWhiteSpace(s[|s| - 1]) then TrimEnd(s[..|s| - 1]) else s
  }

  /** `s.trim()`. */
  function Trim(s: string): string {
    TrimEnd(TrimStart(s))
  }

  /** The trimmed string is an infix of the original with no white space at either end. */
  lemma {:induction false} TrimShape(s: string)
    ensures exists i, j :: 0 <= i <= j <= |s| && Trim(s) == s[i..j]
    ensures Trim(s) != [] ==> !IsWhiteSpace(Trim(s)[0]) && !IsWhiteSpace(Trim(s)[|Trim(s)| - 1])
  {
    var i := TrimStartShape(s);
    var t := s[i..];
    var j := TrimEndShape(t);
    assert Trim(s) == s[i..i + j];
  }

  lemma {:induction false} TrimStartShape(s: string) returns (i: nat)
    ensures i <= |s| && TrimStart(s) == s[i..]
    ensures TrimStart(s) != [] ==> !IsWhiteSpace(TrimStart(s)[0])
    decreases |s|
  {
    if |s| > 0 && IsWhiteSpace(s[0]) {
      var k := TrimStartShape(s[1..]);
      i := k + 1;
      assert s[1..][k..] == s[i..];
    } else {
      i := 0;
    }
  }

  lemma {:induction false} TrimEndShape(s: string) returns (j: nat)
    ensures j <= |s| && TrimEnd(s) == s[..j]
    ensures TrimEnd(s) != [] ==> !IsWhiteSpace(TrimEnd(s)[|TrimEnd(s)| - 1])
    decreases |s|
  {
    if |s| > 0 && IsWhiteSpace(s[|s| - 1]) {
      j := TrimEndShape(s[..|s| - 1]);
      assert s[..|s| - 1][..j] == s[..j];
    } else {
      j := |s|;
    }
  }

  // ---------------------------------------------------------------------------------------
  // Numbers

  predicate IsDigit(c: char) {
    '0' <= c <= '9'
  }

  function DigitChar(d: nat): (c: char)
    requires d < 10
  {
    (48 + d) as char
  }

  /** The value of a character as a digit in bases up to 36; 36 for a character that is none. */
  function DigitValue(c: char): nat {
    if '0' <= c <= '9' then c as int - 48
    else if 'a' <= c <= 'z' then c as int - 97 + 10
    else if 'A' <= c <= 'Z' then c as int - 65 + 10
    else 36
  }

  /** The value of a string of digits in base `radix`, most significant first. */
  function DigitsValue(ds: string, radix: nat): nat
    decreases |ds|
  {
    if ds == [] then 0 else DigitsValue(ds[..|ds| - 1], radix) * radix + DigitValue(ds[|ds| - 1])
  }

  /** The length of the longest prefix of `s` made of digits of base `radix`. */
  function DigitRun(s: string, radix: nat): (n: nat)
    decreases |s|
    ensures n <= |s|
    ensures forall i :: 0 <= i < n ==> DigitValue(s[i]) < radix
    ensures n < |s| ==> DigitValue(s[n]) >= radix
  {
    if |s| > 0 && DigitValue(s[0]) < radix then 1 + DigitRun(s[1..], radix) else 0
  }

  /** The decimal numeral of `n`: digits only, no leading zero. */
  function NatToString(n: nat): (r: string)
    decreases n
    ensures |r| >= 1
    ensures forall i :: 0 <= i < |r| ==> IsDigit(r[i])
    ensures r[0] == '0' ==> n == 0
  {
    if n < 10 then [DigitChar(n)] else NatToString(n / 10) + [DigitChar(n % 10)]
  }

  /** `String(i)` for an integer of moderate size. */
  function IntToString(i: int): string {
    if i < 0 then "-" + NatToString(-i) else NatToString(i)
  }

  /** `String(x)` for a number that is an integer or NaN. */
  function NumberToString(x: Option<int>): string {
    if x.None? then "NaN" else IntToString(x.value)
  }

  /** Reading a numeral back gives the number. */
  lemma {:induction false} NatToStringValue(n: nat)
    ensures DigitsValue(NatToString(n), 10) == n
    decreases n
  {
    var r := NatToString(n);
    if n >= 10 {
      NatToStringValue(n / 10);
      assert r[..|r| - 1] == NatToString(n / 10);
    } else {
      assert r[..|r| - 1] == [];
    }
  }

  /** Distinct numbers have distinct numerals. */
  lemma NatToStringInjective(m: nat, n: nat)
    requires NatToString(m) == NatToString(n)
    ensures m == n
  {
    NatToStringValue(m);
    NatToStringValue(n);
  }

  /**
   * `parseInt(s, radix)`, `radix == 0` standing for an omitted radix: skip leading white
   * space, take an optional sign, strip a "0x"/"0X" prefix when the radix is omitted or 16,
   * then read the longest run of digits; no digit at all gives NaN.
   */
  function ParseInt(s: string, radix: nat): (r: Option<int>)
  {
    var t := TrimStart(s);
    var u := StripSign(t);
    if radix != 0 && (radix < 2 || radix > 36) then None
    else if (radix == 0 || radix == 16) && HasHexPrefix(u) then Signed(IsNegative(t), ParseDigits(u[2..], 16))
    else Signed(IsNegative(t), ParseDigits(u, if radix == 0 then 10 else radix))
  }

  predicate IsNegative(t: string) {
    |t| > 0 && t[0] == '-'
  }

  function StripSign(t: string): string {
    if |t| > 0 && (t[0] == '-' || t[0] == '+') then t[1..] else t
  }

  predicate HasHexPrefix(u: string) {
    |u| >= 2 && u[0] == '0' && (u[1] == 'x' || u[1] == 'X')
  }

  /** The value of the longest digit prefix of `body`, NaN when there is none. */
  function ParseDigits(body: string, base: nat): Option<nat> {
    var digits := body[..DigitRun(body, base)];
    if digits == [] then None else Some(DigitsValue(digits, base))
  }

  function Signed(negative: bool, magnitude: Option<nat>): Option<int> {
    match magnitude
    case None => None
    case Some(m) => var v: int := m; Some(if negative then -v else v)
  }

  /** `parseInt` reads a decimal numeral back, whether the radix is omitted or 10. */
  lemma ParseIntNatToString(n: nat, radix: nat)
    requires radix == 0 || radix == 10
    ensures ParseInt(NatToString(n), radix) == Some(n)
  {
    var s := NatToString(n);
    assert TrimStart(s) == s by {
      assert !IsWhiteSpace(s[0]);
    }
    assert StripSign(s) == s;
    assert !HasHexPrefix(s);
    DigitRunAll(s);
    assert s[..DigitRun(s, 10)] == s;
    NatToStringValue(n);
    assert ParseDigits(s, 10) == Some(n);
  }

  lemma DigitRunAll(s: string)
    requires forall i :: 0 <= i < |s| ==> IsDigit(s[i])
    ensures DigitRun(s, 10) == |s|
  {
  }

  /** `n` rendered with at least two digits, a "0" in front of a single digit. */
  function PadTwo(n: nat): (r: string)
    requires n < 100
    ensures |r| == 2
    ensures forall i :: 0 <= i < |r| ==> IsDigit(r[i])
    ensures DigitsValue(r, 10) == n
  {
    var r := (if n < 10 then "0" else "") + NatToString(n);
    NatToStringValue(n);
    assert n < 10 ==> r[..1] == "0";
    r
  }

  /**
   * `String.fromCharCode(x)`: the code unit `x` modulo 2^16, NaN giving code 0. A lone
   * surrogate code unit cannot be a `char`; it is represented by U+FFFD.
   */
  function FromCharCode(x: Option<int>): char {
    var u := if x.None? then 0 else x.value % 0x1_0000;
    if 0xD800 <= u < 0xE000 then 0xFFFD as char else u as char
  }

  /** A code below the surrogate range is the character with that code. */
  lemma FromCharCodeBelowSurrogates(x: int)
    requires 0 <= x < 0xD800
    ensures FromCharCode(Some(x)) == x as char
  {
    assert x % 0x1_0000 == x;
  }

  /**
   * A numeral, a non-digit separator and a two-digit field split back into the two fields,
   * which read back as the two numbers.
   */
  lemma NumeralAndPadTwo(m: nat, n: nat, sep: char)
    requires n < 100 && !IsDigit(sep)
    ensures Split(NatToString(m) + [sep] + PadTwo(n), [sep]) == [NatToString(m), PadTwo(n)]
    ensures DigitsValue(NatToString(m), 10) == m && DigitsValue(PadTwo(n), 10) == n
  {
    SplitTwo(NatToString(m), PadTwo(n), sep);
    NatToStringValue(m);
  }
}
