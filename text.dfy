/**
 * The JavaScript string operations the components rely on, over `string`
 * (a sequence of characters): `trim`, the `\s` class of regular
 * expressions, `toLowerCase`/`toUpperCase` (ASCII letters only),
 * `includes`, `Number.prototype.toString` for the clock's integer ids, and
 * the ordering used to sort names.
 */
module Text {

  /** ECMAScript WhiteSpace and LineTerminator: the characters `\s` matches and `trim` removes. */
  predicate IsJsSpace(c: char) {
    var n := c as int;
    n == 0x09 || n == 0x0A || n == 0x0B || n == 0x0C || n == 0x0D || n == 0x20 ||
    n == 0xA0 || n == 0x1680 || (0x2000 <= n <= 0x200A) || n == 0x2028 || n == 0x2029 ||
    n == 0x202F || n == 0x205F || n == 0x3000 || n == 0xFEFF
  }

  /** `s` holds nothing but whitespace (possibly nothing at all). */
  predicate IsBlank(s: string) {
    forall i :: 0 <= i < |s| ==> IsJsSpace(s[i])
  }

  /** `s.trimStart()` */
  function TrimStart(s: string): (r: string)
    ensures |r| <= |s| && r == s[|s| - |r|..]
    ensures r != [] ==> !IsJsSpace(r[0])
  {
    if s == [] || !IsJsSpace(s[0]) then s else TrimStart(s[1..])
  }

  /** `s.trimEnd()` */
  function TrimEnd(s: string): (r: string)
    ensures |r| <= |s| && r == s[..|r|]
    ensures r != [] ==> !IsJsSpace(r[|r| - 1])
  {
    if s == [] || !IsJsSpace(s[|s| - 1]) then s else TrimEnd(s[..|s| - 1])
  }

  /** `s.trim()` */
  function Trim(s: string): string {
    TrimStart(TrimEnd(s))
  }

  lemma {:induction false} TrimStartEmptyIffBlank(s: string)
    ensures TrimStart(s) == [] <==> IsBlank(s)
  {
    if s == [] {
    } else if !IsJsSpace(s[0]) {
      assert TrimStart(s) == s;
      assert !IsBlank(s);
    } else {
      assert TrimStart(s) == TrimStart(s[1..]);
      TrimStartEmptyIffBlank(s[1..]);
      BlankAfterSpace(s);
    }
  }

  /** Dropping a leading space keeps a string blank or not blank. */
  lemma BlankAfterSpace(s: string)
    requires s != [] && IsJsSpace(s[0])
    ensures IsBlank(s) <==> IsBlank(s[1..])
  {
    var t := s[1..];
    if IsBlank(t) {
      forall i | 0 <= i < |s| ensures IsJsSpace(s[i]) {
        if i > 0 { assert s[i] == t[i - 1]; }
      }
    }
    if IsBlank(s) {
      forall i | 0 <= i < |t| ensures IsJsSpace(t[i]) {
        assert t[i] == s[i + 1];
      }
    }
  }

  lemma {:induction false} TrimEndEmptyIffBlank(s: string)
    ensures TrimEnd(s) == [] <==> IsBlank(s)
  {
    if s == [] {
    } else if !IsJsSpace(s[|s| - 1]) {
      assert TrimEnd(s) == s;
      assert !IsBlank(s);
    } else {
      assert TrimEnd(s) == TrimEnd(s[..|s| - 1]);
      TrimEndEmptyIffBlank(s[..|s| - 1]);
      BlankBeforeSpace(s);
    }
  }

  /** Dropping a trailing space keeps a string blank or not blank. */
  lemma BlankBeforeSpace(s: string)
    requires s != [] && IsJsSpace(s[|s| - 1])
    ensures IsBlank(s) <==> IsBlank(s[..|s| - 1])
  {
    var t := s[..|s| - 1];
    if IsBlank(t) {
      forall i | 0 <= i < |s| ensures IsJsSpace(s[i]) {
        if i < |s| - 1 { assert s[i] == t[i]; }
      }
    }
    if IsBlank(s) {
      forall i | 0 <= i < |t| ensures IsJsSpace(t[i]) {
        assert t[i] == s[i];
      }
    }
  }

  /** `!s.trim()` in JavaScript: the trimmed string is empty exactly when `s` is all whitespace. */
  lemma TrimEmptyIffBlank(s: string)
    ensures Trim(s) == [] <==> IsBlank(s)
  {
    TrimEndEmptyIffBlank(s);
    var e := TrimEnd(s);
    TrimStartEmptyIffBlank(e);
    if e != [] {
      assert !IsBlank(e) by { assert !IsJsSpace(e[|e| - 1]); }
    }
  }

  predicate IsAsciiDigit(c: char) {
    '0' <= c <= '9'
  }

  predicate IsAsciiUpper(c: char) {
    'A' <= c <= 'Z'
  }

  predicate IsAsciiLower(c: char) {
    'a' <= c <= 'z'
  }

  function UpperChar(c: char): (r: char)
    ensures IsAsciiLower(c) ==> IsAsciiUpper(r) && r as int == c as int - 32
    ensures !IsAsciiLower(c) ==> r == c
  {
    if IsAsciiLower(c) then (c as int - 32) as char else c
  }

  function LowerChar(c: char): (r: char)
    ensures IsAsciiUpper(c) ==> IsAsciiLower(r) && r as int == c as int + 32
    ensures !IsAsciiUpper(c) ==> r == c
  {
    if IsAsciiUpper(c) then (c as int + 32) as char else c
  }

  /** `s.toUpperCase()`, restricted to the ASCII letters. */
  function ToUpper(s: string): (r: string)
    ensures |r| == |s|
    ensures forall i :: 0 <= i < |s| ==> r[i] == UpperChar(s[i])
  {
    seq(|s|, i requires 0 <= i < |s| => UpperChar(s[i]))
  }

  /** `s.toLowerCase()`, restricted to the ASCII letters. */
  function ToLower(s: string): (r: string)
    ensures |r| == |s|
    ensures forall i :: 0 <= i < |s| ==> r[i] == LowerChar(s[i])
  {
    seq(|s|, i requires 0 <= i < |s| => LowerChar(s[i]))
  }

  /** Upper-casing twice is upper-casing once. */
  lemma ToUpperIdempotent(s: string)
    ensures ToUpper(ToUpper(s)) == ToUpper(s)
  {
  }

  /** `needle` occurs in `hay` starting at index `i`. */
  ghost predicate OccursAt(hay: string, needle: string, i: nat) {
    i + |needle| <= |hay| && hay[i..i + |needle|] == needle
  }

  /** `hay.includes(needle)` */
  function Includes(hay: string, needle: string): (r: bool)
    ensures r <==> exists i: nat :: OccursAt(hay, needle, i)
    decreases |hay|
  {
    if |needle| <= |hay| && hay[..|needle|] == needle then
      assert OccursAt(hay, needle, 0);
      true
    else if hay == [] then
      false
    else
      OccursShift(hay, needle);
      Includes(hay[1..], needle)
  }

  /** Away from index 0, an occurrence in `hay` is an occurrence in `hay[1..]` one place earlier. */
  lemma OccursShift(hay: string, needle: string)
    requires hay != [] && !OccursAt(hay, needle, 0)
    ensures (exists i: nat :: OccursAt(hay, needle, i)) <==> (exists i: nat :: OccursAt(hay[1..], needle, i))
  {
    forall i: nat | OccursAt(hay[1..], needle, i) ensures OccursAt(hay, needle, i + 1) {
      assert hay[i + 1..i + 1 + |needle|] == hay[1..][i..i + |needle|];
    }
    forall i: nat | OccursAt(hay, needle, i) ensures i > 0 && OccursAt(hay[1..], needle, i - 1) {
      assert hay[i..i + |needle|] == hay[1..][i - 1..i - 1 + |needle|];
    }
  }

  /** Every string includes the empty string: `s.includes("")` is true. */
  lemma IncludesEmpty(hay: string)
    ensures Includes(hay, "")
  {
    assert OccursAt(hay, "", 0);
  }

  /** Decimal digits of `n`, as `n.toString()` writes them (no leading zeros). */
  function Decimal(n: nat): (r: string)
    ensures r != []
    ensures forall i :: 0 <= i < |r| ==> IsAsciiDigit(r[i])
    ensures |r| > 1 ==> r[0] != '0'
  {
    var d := ('0' as int + n % 10) as char;
    if n < 10 then [d] else Decimal(n / 10) + [d]
  }

  /**
   * The ordering the attendance list is sorted by: code-unit lexicographic
   * order on names, standing in for the locale's collation.
   */
  predicate NameLe(a: string, b: string) {
    if a == [] then true
    else if b == [] then false
    else if a[0] == b[0] then NameLe(a[1..], b[1..])
    else a[0] < b[0]
  }

  lemma {:induction false} NameLeReflexive(a: string)
    ensures NameLe(a, a)
  {
    if a != [] { NameLeReflexive(a[1..]); }
  }

  lemma {:induction false} NameLeTotal(a: string, b: string)
    ensures NameLe(a, b) || NameLe(b, a)
  {
    if a != [] && b != [] && a[0] == b[0] { NameLeTotal(a[1..], b[1..]); }
  }

  lemma {:induction false} NameLeTransitive(a: string, b: string, c: string)
    requires NameLe(a, b) && NameLe(b, c)
    ensures NameLe(a, c)
  {
    if a != [] && b != [] && c != [] && a[0] == b[0] && b[0] == c[0] {
      NameLeTransitive(a[1..], b[1..], c[1..]);
    }
  }

  lemma {:induction false} NameLeAntisymmetric(a: string, b: string)
    requires NameLe(a, b) && NameLe(b, a)
    ensures a == b
  {
    if a != [] && b != [] {
      NameLeAntisymmetric(a[1..], b[1..]);
      assert a == [a[0]] + a[1..] && b == [b[0]] + b[1..];
    }
  }

  /**
   * The roster search: the lower-cased term occurs in the lower-cased name
   * or in the lower-cased USN.
   */
  predicate MatchesTerm(name: string, usn: string, term: string) {
    Includes(ToLower(name), ToLower(term)) || Includes(ToLower(usn), ToLower(term))
  }

  /** The empty search term matches every student. */
  lemma EmptyTermMatches(name: string, usn: string)
    ensures MatchesTerm(name, usn, "")
  {
    assert ToLower("") == "";
    IncludesEmpty(ToLower(name));
  }

  /** The number a string of decimal digits denotes, read most significant digit first. */
  function DigitsValue(s: string): int {
    if s == [] then 0 else DigitsValue(s[..|s| - 1]) * 10 + (s[|s| - 1] as int - '0' as int)
  }

  /** The digits `Decimal` writes denote the number written. */
  lemma {:induction false} DecimalValue(n: nat)
    ensures DigitsValue(Decimal(n)) == n
  {
    var d := ('0' as int + n % 10) as char;
    if n >= 10 {
      DecimalValue(n / 10);
      var r := Decimal(n);
      assert r == Decimal(n / 10) + [d];
      assert r[..|r| - 1] == Decimal(n / 10);
    }
  }

  /** Different numbers are written differently. */
  lemma DecimalInjective(m: nat, n: nat)
    requires Decimal(m) == Decimal(n)
    ensures m == n
  {
    DecimalValue(m);
    DecimalValue(n);
  }
}
