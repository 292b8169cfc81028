/** The JavaScript string operations the core relies on: `trim`,
    `toLowerCase`, `includes`, `split(',')` and `parseInt`. */
module Strings {
  import opened Common

  /** The characters `String.prototype.trim` strips (and `parseInt` skips):
      the white space of ECMAScript — tab, vertical tab, form feed, the byte
      order mark and every space separator of Unicode category Zs — and the
      four line terminators. */
  predicate IsSpace(c: char)
  {
    c == '\t' || c == '\U{000B}' || c == '\U{000C}' || c == '\U{FEFF}'
    || c == '\n' || c == '\r' || c == '\U{2028}' || c == '\U{2029}'
    || IsSpaceSeparator(c)
  }

  /** Unicode category Zs. */
  predicate IsSpaceSeparator(c: char)
  {
    c == ' ' || c == '\U{00A0}' || c == '\U{1680}' || '\U{2000}' <= c <= '\U{200A}'
    || c == '\U{202F}' || c == '\U{205F}' || c == '\U{3000}'
  }

  /** Every character of `s` is white space (this includes the empty string). */
  predicate IsBlank(s: string)
  {
    forall i :: 0 <= i < |s| ==> IsSpace(s[i])
  }

  function TrimStart(s: string): (r: string)
    ensures |r| <= |s| && r == s[|s| - |r|..]
    ensures IsBlank(s[..|s| - |r|])
    ensures r != [] ==> !IsSpace(r[0])
  {
    if s != [] && IsSpace(s[0]) then
      var r := TrimStart(s[1..]);
      assert s[..|s| - |r|] == [s[0]] + s[1..][..|s| - 1 - |r|];
      r
    else s
  }

  function TrimEnd(s: string): (r: string)
    ensures |r| <= |s| && r == s[..|r|]
    ensures IsBlank(s[|r|..])
    ensures r != [] ==> !IsSpace(r[|r| - 1])
  {
    if s != [] && IsSpace(s[|s| - 1]) then
      var r := TrimEnd(s[..|s| - 1]);
      assert s[|r|..] == s[..|s| - 1][|r|..] + [s[|s| - 1]];
      r
    else s
  }

  /** The number of white-space characters `s` starts with. */
  function Lead(s: string): (n: nat)
    ensures n <= |s|
  {
    |s| - |TrimStart(s)|
  }

  lemma BlankConcat(a: string, b: string)
    requires IsBlank(a) && IsBlank(b)
    ensures IsBlank(a + b)
  {
    forall i | 0 <= i < |a + b| ensures IsSpace((a + b)[i]) {
      if i >= |a| { assert (a + b)[i] == b[i - |a|]; }
    }
  }

  /** `String.prototype.trim`. The result is the part of `s` between its
      leading and its trailing white space: it is empty exactly when `s` is
      blank, and otherwise starts and ends with a non-space character. */
  function Trim(s: string): (r: string)
    ensures Lead(s) + |r| <= |s| && r == s[Lead(s)..Lead(s) + |r|]
    ensures IsBlank(s[..Lead(s)]) && IsBlank(s[Lead(s) + |r|..])
    ensures r == [] <==> IsBlank(s)
    ensures r != [] ==> !IsSpace(r[0]) && !IsSpace(r[|r| - 1])
  {
    TrimEnd(TrimStart(s))
  }

  /** Trimming twice is trimming once. */
  lemma TrimIdempotent(s: string)
    ensures Trim(Trim(s)) == Trim(s)
  {
    var r := Trim(s);
    if r != [] {
      TrimUntouched(r);
    }
  }

  /** A string that neither starts nor ends with white space is its own trim. */
  lemma TrimUntouched(s: string)
    requires s != [] && !IsSpace(s[0]) && !IsSpace(s[|s| - 1])
    ensures Trim(s) == s
  {
    assert TrimStart(s) == s;
    assert TrimEnd(s) == s;
  }

  /** The capital letters the model lower-cases: the ASCII capitals, the
      Latin-1 capitals (`À` to `Þ` without `×`) and the capitals of the
      basic Cyrillic block. */
  predicate IsCapital(c: char)
  {
    'A' <= c <= 'Z' || ('\U{00C0}' <= c <= '\U{00DE}' && c != '\U{00D7}')
    || '\U{0400}' <= c <= '\U{042F}'
  }

  /** `toLowerCase` of one character: each capital becomes its small
      letter, every other character is kept. No character outside ASCII
      lowers to an ASCII one. */
  function LowerChar(c: char): (r: char)
    ensures !IsCapital(r)
    ensures !IsCapital(c) ==> r == c
    ensures (r as int < 128) <==> (c as int < 128)
  {
    if 'A' <= c <= 'Z' || '\U{00C0}' <= c <= '\U{00DE}' || '\U{0410}' <= c <= '\U{042F}' then
      if IsCapital(c) then (c as int + 32) as char else c
    else if '\U{0400}' <= c <= '\U{040F}' then (c as int + 80) as char
    else c
  }

  /** `String.prototype.toLowerCase`: the same length, each character
      lowered, no capital left. */
  function ToLower(s: string): (r: string)
    ensures |r| == |s|
    ensures forall i :: 0 <= i < |s| ==> r[i] == LowerChar(s[i])
    ensures forall i :: 0 <= i < |r| ==> !IsCapital(r[i])
  {
    seq(|s|, i requires 0 <= i < |s| => LowerChar(s[i]))
  }

  /** Lower-casing twice is lower-casing once. */
  lemma ToLowerIdempotent(s: string)
    ensures ToLower(ToLower(s)) == ToLower(s)
  {
  }

  /** Comparison under the case folding of `toLowerCase` (and of a regular
      expression's `i` flag for ASCII text). */
  predicate EqualsIgnoreCase(a: string, b: string)
  {
    ToLower(a) == ToLower(b)
  }

  /** Lengths as JavaScript counts them: UTF-16 code units, two for each
      character outside the Basic Multilingual Plane. */
  function Utf16Length(s: string): (n: nat)
    ensures |s| <= n <= 2 * |s|
    ensures n == |s| <==> forall i :: 0 <= i < |s| ==> s[i] as int <= 0xFFFF
  {
    if s == [] then 0
    else
      var n := Utf16Length(s[..|s| - 1]) + (if s[|s| - 1] as int > 0xFFFF then 2 else 1);
      assert forall i :: 0 <= i < |s| - 1 ==> s[..|s| - 1][i] == s[i];
      n
  }

  /** `String.prototype.includes`: `needle` occurs in `hay` at some offset. */
  predicate Contains(hay: string, needle: string)
  {
    exists i :: 0 <= i <= |hay| && OccursAt(hay, needle, i)
  }

  /** `needle` occurs in `hay` starting at index `i`. */
  predicate OccursAt(hay: string, needle: string, i: nat)
  {
    i + |needle| <= |hay| && hay[i..i + |needle|] == needle
  }

  /** Case-insensitive substring test, both sides folded with `ToLower`. */
  predicate ContainsIgnoreCase(hay: string, needle: string)
  {
    Contains(ToLower(hay), ToLower(needle))
  }

  /** `String.prototype.split(sep)` for a one-character separator: the
      pieces between separators, at least one piece. */
  function Split(s: string, sep: char): (r: seq<string>)
    ensures |r| >= 1
    ensures forall i :: 0 <= i < |r| ==> sep !in r[i]
  {
    if s == [] then [""]
    else
      var rest := Split(s[1..], sep);
      if s[0] == sep then [""] + rest
      else [[s[0]] + rest[0]] + rest[1..]
  }

  /** `Array.prototype.join(sep)`. */
  function Join(pieces: seq<string>, sep: char): string
    requires |pieces| >= 1
  {
    if |pieces| == 1 then pieces[0] else pieces[0] + [sep] + Join(pieces[1..], sep)
  }

  /** Joining the pieces of a split gives back the string. */
  lemma {:induction false} JoinSplit(s: string, sep: char)
    ensures Join(Split(s, sep), sep) == s
  {
    if s != [] {
      JoinSplit(s[1..], sep);
      var rest := Split(s[1..], sep);
      if s[0] != sep {
        var r := Split(s, sep);
        assert r[1..] == rest[1..];
        if |rest| > 1 {
          assert Join(rest, sep) == rest[0] + [sep] + Join(rest[1..], sep);
        }
      }
    }
  }

  /** Splitting a join of separator-free pieces gives back the pieces. */
  lemma {:induction false} SplitJoin(pieces: seq<string>, sep: char)
    requires |pieces| >= 1
    requires forall i :: 0 <= i < |pieces| ==> sep !in pieces[i]
    ensures Split(Join(pieces, sep), sep) == pieces
    decreases |pieces|, |pieces[0]|
  {
    var p := pieces[0];
    if p == [] {
      if |pieces| > 1 {
        SplitJoin(pieces[1..], sep);
        assert Join(pieces, sep) == [sep] + Join(pieces[1..], sep);
        assert ([sep] + Join(pieces[1..], sep))[1..] == Join(pieces[1..], sep);
      }
    } else {
      var tail := [p[1..]] + pieces[1..];
      SplitJoin(tail, sep);
      if |pieces| > 1 {
        assert tail[1..] == pieces[1..];
        assert Join(pieces, sep) == [p[0]] + Join(tail, sep);
      } else {
        assert Join(pieces, sep) == [p[0]] + Join(tail, sep);
      }
      assert ([p[0]] + Join(tail, sep))[1..] == Join(tail, sep);
      assert [p[0]] + p[1..] == p;
    }
  }

  /** The comma-separated list fields of an upload (`tags`, `examTags`,
      `syllabusTopics`): a truthy string becomes its trimmed comma-separated
      pieces, anything else the empty list. */
  function SplitTrimmed(field: Option<string>): (r: seq<string>)
    ensures field.None? || field.value == "" ==> r == []
    ensures field.Some? && field.value != "" ==>
              |r| == |Split(field.value, ',')| &&
              forall i :: 0 <= i < |r| ==> r[i] == Trim(Split(field.value, ',')[i])
  {
    if field.Some? && field.value != "" then
      var pieces := Split(field.value, ',');
      seq(|pieces|, i requires 0 <= i < |pieces| => Trim(pieces[i]))
    else []
  }

  predicate IsDigit(c: char)
  {
    '0' <= c <= '9'
  }

  /** The value of `c` as a digit in base `radix`, as `parseInt` reads
      digits: `0`-`9`, then the letters of either case from 10 on; `None`
      when `c` is no digit of that base. */
  function DigitIn(c: char, radix: nat): (r: Option<nat>)
    requires 2 <= radix <= 36
    ensures r.Some? ==> r.value < radix
    ensures radix == 10 ==> (r.Some? <==> IsDigit(c))
  {
    var v := if '0' <= c <= '9' then c as int - '0' as int
             else if 'a' <= c <= 'z' then c as int - 'a' as int + 10
             else if 'A' <= c <= 'Z' then c as int - 'A' as int + 10
             else radix;
    if v < radix then Some(v) else None
  }

  /** The digit that stands for `d` in base `radix` (lower-case letters). */
  function DigitChar(d: nat, radix: nat): (c: char)
    requires 2 <= radix <= 36 && d < radix
    ensures DigitIn(c, radix) == Some(d)
  {
    if d < 10 then ('0' as int + d) as char else ('a' as int + d - 10) as char
  }

  predicate AllDigits(d: string, radix: nat)
    requires 2 <= radix <= 36
  {
    forall i :: 0 <= i < |d| ==> DigitIn(d[i], radix).Some?
  }

  /** The longest prefix of `s` made only of digits of base `radix`. */
  function DigitPrefix(s: string, radix: nat): (r: string)
    requires 2 <= radix <= 36
    ensures |r| <= |s| && r == s[..|r|]
    ensures AllDigits(r, radix)
    ensures |r| < |s| ==> DigitIn(s[|r|], radix).None?
  {
    if s != [] && DigitIn(s[0], radix).Some? then [s[0]] + DigitPrefix(s[1..], radix) else []
  }

  /** The number a string of digits of base `radix` denotes. */
  function DigitsValue(d: string, radix: nat): nat
    requires 2 <= radix <= 36 && AllDigits(d, radix)
  {
    if d == [] then 0
    else radix * DigitsValue(d[..|d| - 1], radix) + DigitIn(d[|d| - 1], radix).value
  }

  /** The syntax `parseInt(s)` recognises without a radix argument: leading
      white space, an optional sign, and a `0x`/`0X` prefix that selects
      base 16 (base 10 otherwise); `body` is the text after all of these. */
  datatype IntSyntax = IntSyntax(negative: bool, radix: nat, body: string)

  /** `u` starts with `0x` or `0X`. */
  predicate HasHexPrefix(u: string)
  {
    |u| >= 2 && u[0] == '0' && (u[1] == 'x' || u[1] == 'X')
  }

  function IntSyntaxOf(s: string): (p: IntSyntax)
    ensures p.radix == 10 || p.radix == 16
  {
    var t := TrimStart(s);
    var u := if t != [] && (t[0] == '-' || t[0] == '+') then t[1..] else t;
    IntSyntax(t != [] && t[0] == '-', if HasHexPrefix(u) then 16 else 10,
              if HasHexPrefix(u) then u[2..] else u)
  }

  function Signed(negative: bool, n: nat): int
  {
    if negative then -(n as int) else n
  }

  /** `parseInt(s)`: the longest run of digits of the selected base after the
      prefix, with the sign applied; `None` stands for `NaN` (no digit at
      all, as for `"x"`, `"-"` or a bare `"0x"`). */
  function ParseInt(s: string): (r: Option<int>)
    ensures var p := IntSyntaxOf(s);
      r.None? <==> p.body == [] || DigitIn(p.body[0], p.radix).None?
  {
    var p := IntSyntaxOf(s);
    var d := DigitPrefix(p.body, p.radix);
    if d == [] then None
    else Some(Signed(p.negative, DigitsValue(d, p.radix)))
  }

  /** The spelling of a natural number in base `radix` (`n.toString(radix)`). */
  function NatText(n: nat, radix: nat): (r: string)
    requires 2 <= radix <= 36
    ensures |r| >= 1 && AllDigits(r, radix)
    ensures |r| == 1 <==> n < radix
  {
    if n < radix then [DigitChar(n, radix)]
    else
      DivMod(n, radix);
      NatText(n / radix, radix) + [DigitChar(n % radix, radix)]
  }

  /** The decimal spelling of a natural number (`String(n)`). */
  function NatToString(n: nat): (r: string)
    ensures |r| >= 1 && forall i :: 0 <= i < |r| ==> IsDigit(r[i])
  {
    NatText(n, 10)
  }

  lemma {:induction false} DigitsValueOfNatText(n: nat, radix: nat)
    requires 2 <= radix <= 36
    ensures DigitsValue(NatText(n, radix), radix) == n
  {
    var r := NatText(n, radix);
    if n >= radix {
      var q, m := n / radix, n % radix;
      DivMod(n, radix);
      DigitsValueOfNatText(q, radix);
      assert r == NatText(q, radix) + [DigitChar(m, radix)];
      DigitsValueSnoc(NatText(q, radix), DigitChar(m, radix), radix);
    } else {
      assert r[..0] == [];
    }
  }

  lemma DigitsValueSnoc(d: string, c: char, radix: nat)
    requires 2 <= radix <= 36 && AllDigits(d, radix) && DigitIn(c, radix).Some?
    ensures AllDigits(d + [c], radix)
    ensures DigitsValue(d + [c], radix) == radix * DigitsValue(d, radix) + DigitIn(c, radix).value
  {
    assert (d + [c])[..|d|] == d;
  }

  lemma DivMod(n: nat, d: nat)
    requires d > 1
    ensures d * (n / d) + n % d == n
    ensures n > 0 ==> n / d < n
  {
    var q := n / d;
    ProductGrows(d, q);
  }

  lemma ProductGrows(d: nat, q: nat)
    requires d > 1
    ensures d * q >= 2 * q
  {
    var k := d - 2;
    assert d * q == 2 * q + k * q;
  }

  /** The digit prefix of digits followed by a non-digit is those digits. */
  lemma {:induction false} DigitPrefixOfDigits(d: string, rest: string, radix: nat)
    requires 2 <= radix <= 36 && AllDigits(d, radix)
    requires rest == [] || DigitIn(rest[0], radix).None?
    ensures DigitPrefix(d + rest, radix) == d
  {
    if d != [] {
      assert (d + rest)[1..] == d[1..] + rest;
      DigitPrefixOfDigits(d[1..], rest, radix);
      assert [d[0]] + d[1..] == d;
    } else {
      assert d + rest == rest;
    }
  }

  /** Leading white space does not change what `parseInt` reads. */
  lemma {:induction false} ParseIntSkipsSpace(w: string, s: string)
    requires IsBlank(w)
    ensures ParseInt(w + s) == ParseInt(s)
  {
    TrimStartBlank(w, s);
    assert IntSyntaxOf(w + s) == IntSyntaxOf(s);
  }

  lemma {:induction false} TrimStartBlank(w: string, s: string)
    requires IsBlank(w)
    ensures TrimStart(w + s) == TrimStart(s)
  {
    if w != [] {
      assert (w + s)[1..] == w[1..] + s;
      TrimStartBlank(w[1..], s);
    } else {
      assert w + s == s;
    }
  }

  function Sign(negative: bool): string
  {
    if negative then "-" else ""
  }

  /** The syntax of an optional minus sign followed by text that starts
      with a digit. */
  lemma IntSyntaxOfSigned(negative: bool, u: string)
    requires u != [] && IsDigit(u[0])
    ensures IntSyntaxOf(Sign(negative) + u) ==
            IntSyntax(negative, if HasHexPrefix(u) then 16 else 10,
                      if HasHexPrefix(u) then u[2..] else u)
  {
    var s := Sign(negative) + u;
    assert !IsSpace(s[0]);
    assert TrimStart(s) == s;
    assert negative ==> s[1..] == u;
  }

  /** `parseInt` of a syntax whose body starts with the digits `d`. */
  lemma ParseIntOfSyntax(s: string, negative: bool, radix: nat, d: string, rest: string)
    requires IntSyntaxOf(s) == IntSyntax(negative, radix, d + rest)
    requires 2 <= radix <= 36 && AllDigits(d, radix) && d != []
    requires rest == [] || DigitIn(rest[0], radix).None?
    ensures ParseInt(s) == Some(Signed(negative, DigitsValue(d, radix)))
  {
    DigitPrefixOfDigits(d, rest, radix);
  }

  /** `parseInt` reads a signed decimal number back from its spelling and
      stops at the first non-digit, unless that is the `x` of a `0x` prefix. */
  lemma ParseIntReadsDecimal(negative: bool, n: nat, rest: string)
    requires rest == [] || (!IsDigit(rest[0]) && !(n == 0 && (rest[0] == 'x' || rest[0] == 'X')))
    ensures ParseInt(Sign(negative) + NatToString(n) + rest) == Some(Signed(negative, n))
  {
    var d := NatToString(n);
    assert Sign(negative) + d + rest == Sign(negative) + (d + rest);
    DecimalSyntax(negative, n, rest);
    ParseIntOfSyntax(Sign(negative) + (d + rest), negative, 10, d, rest);
    DigitsValueOfNatText(n, 10);
  }

  lemma DecimalSyntax(negative: bool, n: nat, rest: string)
    requires rest == [] || !(n == 0 && (rest[0] == 'x' || rest[0] == 'X'))
    ensures IntSyntaxOf(Sign(negative) + (NatToString(n) + rest)) ==
            IntSyntax(negative, 10, NatToString(n) + rest)
  {
    var d := NatToString(n);
    var u := d + rest;
    assert |d| >= 2 ==> u[1] == d[1];
    assert |d| == 1 ==> u[0] == DigitChar(n, 10);
    assert !HasHexPrefix(u);
    IntSyntaxOfSigned(negative, u);
  }

  /** `parseInt` reads back what `String(n)` writes. */
  lemma ParseIntOfNatToString(n: nat)
    ensures ParseInt(NatToString(n)) == Some(n)
  {
    assert Sign(false) + NatToString(n) + "" == NatToString(n);
    ParseIntReadsDecimal(false, n, "");
  }

  /** With a `0x` or `0X` prefix `parseInt` reads base 16, up to the first
      character that is no hexadecimal digit. */
  lemma ParseIntReadsHex(negative: bool, x: char, n: nat, rest: string)
    requires x == 'x' || x == 'X'
    requires rest == [] || DigitIn(rest[0], 16).None?
    ensures ParseInt(Sign(negative) + ['0', x] + NatText(n, 16) + rest) == Some(Signed(negative, n))
  {
    var d := NatText(n, 16);
    assert Sign(negative) + ['0', x] + d + rest == Sign(negative) + ['0', x] + (d + rest);
    HexSyntax(negative, x, d + rest);
    ParseIntOfSyntax(Sign(negative) + ['0', x] + (d + rest), negative, 16, d, rest);
    DigitsValueOfNatText(n, 16);
  }

  lemma HexSyntax(negative: bool, x: char, v: string)
    requires x == 'x' || x == 'X'
    ensures IntSyntaxOf(Sign(negative) + ['0', x] + v) == IntSyntax(negative, 16, v)
  {
    var u := ['0', x] + v;
    assert HasHexPrefix(u) && u[2..] == v;
    IntSyntaxOfSigned(negative, u);
    assert Sign(negative) + ['0', x] + v == Sign(negative) + u;
  }

  /** A `0x` prefix without a hexadecimal digit after it is `NaN`. */
  lemma ParseIntBareHexPrefix(rest: string)
    requires rest == [] || DigitIn(rest[0], 16).None?
    ensures ParseInt("0x" + rest) == None
  {
    IntSyntaxOfSigned(false, "0x" + rest);
    assert Sign(false) + ("0x" + rest) == "0x" + rest;
    assert ("0x" + rest)[2..] == rest;
  }
}
