/**
 * String primitives of the JavaScript runtime that the archive code relies on:
 * `String.prototype.trim`, ASCII `toLowerCase`, decimal rendering of integers,
 * `Number.parseInt(value, 10)`, `split` on a set of separator characters,
 * `Array.prototype.join` and the UTF-8 encoding used by `writeFile(..., "utf8")`.
 */
module Text {
  import opened Wrappers

  newtype byte = b: int | 0 <= b < 256

  /** The characters `String.prototype.trim` removes (ECMAScript WhiteSpace and LineTerminator). */
  predicate IsWhitespace(c: char) {
    var n := c as int;
    n == 0x09 || n == 0x0A || n == 0x0B || n == 0x0C || n == 0x0D || n == 0x20
    || n == 0xA0 || n == 0x1680 || (0x2000 <= n <= 0x200A) || n == 0x2028 || n == 0x2029
    || n == 0x202F || n == 0x205F || n == 0x3000 || n == 0xFEFF
  }

  predicate IsDigit(c: char) { '0' <= c <= '9' }

  predicate IsAsciiLetter(c: char) { ('a' <= c <= 'z') || ('A' <= c <= 'Z') }

  /** Drops the leading whitespace: what is left is a suffix of `s`. */
  function TrimStart(s: string): (r: string)
    ensures |r| <= |s|
    ensures forall i :: 0 <= i < |s| - |r| ==> IsWhitespace(s[i])
    ensures r == [] || !IsWhitespace(r[0])
  {
    if s != [] && IsWhitespace(s[0]) then TrimStart(s[1..]) else s
  }

  lemma {:induction false} TrimStartSuffix(s: string)
    ensures TrimStart(s) == s[|s| - |TrimStart(s)|..]
    decreases |s|
  {
    if s != [] && IsWhitespace(s[0]) {
      TrimStartSuffix(s[1..]);
    }
  }

  /** Drops the trailing whitespace: what is left is a prefix of `s`. */
  function TrimEnd(s: string): (r: string)
    ensures |r| <= |s|
    ensures forall i :: |r| <= i < |s| ==> IsWhitespace(s[i])
    ensures r == [] || !IsWhitespace(r[|r| - 1])
  {
    if s != [] && IsWhitespace(s[|s| - 1]) then TrimEnd(s[..|s| - 1]) else s
  }

  lemma {:induction false} TrimEndPrefix(s: string)
    ensures TrimEnd(s) == s[..|TrimEnd(s)|]
    decreases |s|
  {
    if s != [] && IsWhitespace(s[|s| - 1]) {
      TrimEndPrefix(s[..|s| - 1]);
    }
  }

  /** `s.trim()`: the slice of `s` between its leading and trailing whitespace. */
  function Trim(s: string): (r: string)
    ensures |r| <= |s|
    ensures r == [] || (!IsWhitespace(r[0]) && !IsWhitespace(r[|r| - 1]))
  {
    TrimEndPrefix(TrimStart(s));
    TrimEnd(TrimStart(s))
  }

  /** The trimmed text is a slice of the original. */
  lemma TrimSlice(s: string)
    ensures var a := |s| - |TrimStart(s)|; a + |Trim(s)| <= |s| && Trim(s) == s[a..a + |Trim(s)|]
  {
    TrimStartSuffix(s);
    TrimEndPrefix(TrimStart(s));
  }

  predicate AllWhitespace(s: string) {
    forall i :: 0 <= i < |s| ==> IsWhitespace(s[i])
  }

  lemma {:induction false} TrimStartPadded(w: string, g: string)
    requires AllWhitespace(w) && (g == [] || !IsWhitespace(g[0]))
    ensures TrimStart(w + g) == g
    decreases |w|
  {
    if w == [] {
      assert w + g == g;
    } else {
      assert (w + g)[0] == w[0];
      assert (w + g)[1..] == w[1..] + g;
      TrimStartPadded(w[1..], g);
    }
  }

  lemma {:induction false} TrimEndPadded(g: string, w: string)
    requires AllWhitespace(w) && (g == [] || !IsWhitespace(g[|g| - 1]))
    ensures TrimEnd(g + w) == g
    decreases |w|
  {
    if w == [] {
      assert g + w == g;
    } else {
      assert (g + w)[|g + w| - 1] == w[|w| - 1];
      assert (g + w)[..|g + w| - 1] == g + w[..|w| - 1];
      TrimEndPadded(g, w[..|w| - 1]);
    }
  }

  /** Trimming text padded with whitespace on both sides gives back the text. */
  lemma TrimPadded(w1: string, g: string, w2: string)
    requires AllWhitespace(w1) && AllWhitespace(w2) && g != [] && NoEdgeWhitespace(g)
    ensures Trim(w1 + g + w2) == g
  {
    assert w1 + g + w2 == w1 + (g + w2);
    TrimStartPadded(w1, g + w2);
    TrimEndPadded(g, w2);
  }

  predicate NoEdgeWhitespace(s: string) {
    s == [] || (!IsWhitespace(s[0]) && !IsWhitespace(s[|s| - 1]))
  }

  /** Trimming leaves a string without edge whitespace unchanged. */
  lemma TrimNoop(s: string)
    requires NoEdgeWhitespace(s)
    ensures Trim(s) == s
  {
  }

  lemma {:induction false} TrimIdempotent(s: string)
    ensures Trim(Trim(s)) == Trim(s)
  {
    TrimNoop(Trim(s));
  }

  /** Trimming is the identity exactly on strings without edge whitespace. */
  lemma TrimFixedPoint(s: string)
    ensures Trim(s) == s <==> NoEdgeWhitespace(s)
  {
    if NoEdgeWhitespace(s) {
      TrimNoop(s);
    }
  }

  function LowerChar(c: char): char {
    if 'A' <= c <= 'Z' then (c as int + 32) as char else c
  }

  /** `toLowerCase` on the ASCII range (other characters are kept). */
  function ToLower(s: string): (r: string)
    ensures |r| == |s|
  {
    seq(|s|, i requires 0 <= i < |s| => LowerChar(s[i]))
  }

  lemma ToLowerIdempotent(s: string)
    ensures ToLower(ToLower(s)) == ToLower(s)
  {
  }

  lemma LowerCharWhitespace(c: char)
    ensures IsWhitespace(LowerChar(c)) <==> IsWhitespace(c)
  {
  }

  lemma ToLowerSlices(s: string)
    requires s != []
    ensures ToLower(s)[1..] == ToLower(s[1..])
    ensures ToLower(s)[..|s| - 1] == ToLower(s[..|s| - 1])
    ensures ToLower(s)[0] == LowerChar(s[0]) && ToLower(s)[|s| - 1] == LowerChar(s[|s| - 1])
  {
  }

  /** Lower-casing neither creates nor removes whitespace, so it commutes with trimming. */
  lemma {:induction false} TrimToLowerCommute(s: string)
    ensures Trim(ToLower(s)) == ToLower(Trim(s))
  {
    TrimStartToLower(s);
    TrimEndToLower(TrimStart(s));
  }

  lemma {:induction false} TrimStartToLower(s: string)
    ensures TrimStart(ToLower(s)) == ToLower(TrimStart(s))
    decreases |s|
  {
    if s != [] {
      ToLowerSlices(s);
      LowerCharWhitespace(s[0]);
      if IsWhitespace(s[0]) {
        TrimStartToLower(s[1..]);
      }
    }
  }

  lemma {:induction false} TrimEndToLower(s: string)
    ensures TrimEnd(ToLower(s)) == ToLower(TrimEnd(s))
    decreases |s|
  {
    if s != [] {
      ToLowerSlices(s);
      LowerCharWhitespace(s[|s| - 1]);
      if IsWhitespace(s[|s| - 1]) {
        TrimEndToLower(s[..|s| - 1]);
      }
    }
  }

  function DigitChar(d: nat): char
    requires d < 10
  {
    ('0' as int + d) as char
  }

  /** Decimal rendering of a natural number, as `String(n)` prints a safe integer. */
  function NatToString(n: nat): (r: string)
    ensures r != [] && forall i :: 0 <= i < |r| ==> IsDigit(r[i])
    ensures |r| > 1 ==> r[0] != '0'
  {
    if n < 10 then [DigitChar(n)] else NatToString(n / 10) + [DigitChar(n % 10)]
  }

  /** Decimal rendering of an integer, with a leading `-` for negative values. */
  function IntToString(n: int): (r: string)
    ensures r != [] && (n < 0 <==> r[0] == '-')
  {
    if n < 0 then "-" + NatToString(-n) else NatToString(n)
  }

  function DigitValue(c: char): nat
    requires IsDigit(c)
  {
    c as int - '0' as int
  }

  /** The value of a run of decimal digits. */
  function DigitsValue(ds: string): nat
    requires forall i :: 0 <= i < |ds| ==> IsDigit(ds[i])
  {
    if ds == [] then 0 else DigitsValue(ds[..|ds| - 1]) * 10 + DigitValue(ds[|ds| - 1])
  }

  /** Reading back the digits of `NatToString(n)` gives `n`. */
  lemma {:induction false} NatToStringValue(n: nat)
    ensures DigitsValue(NatToString(n)) == n
  {
    if n >= 10 {
      NatToStringValue(n / 10);
      var s := NatToString(n);
      assert s[..|s| - 1] == NatToString(n / 10);
    }
  }

  /** Length of the leading run of decimal digits of `s`. */
  function DigitRun(s: string): (k: nat)
    ensures k <= |s| && (k == |s| || !IsDigit(s[k]))
    ensures forall i :: 0 <= i < k ==> IsDigit(s[i])
  {
    if s != [] && IsDigit(s[0]) then 1 + DigitRun(s[1..]) else 0
  }

  /**
   * `Number.parseInt(value, 10)`: leading whitespace is skipped, one optional sign is read,
   * then the longest run of decimal digits; `None` stands for `NaN` (no digit at all).
   */
  function ParseIntPrefix(value: string): (r: Option<int>)
    ensures var t := TrimStart(value);
            var body := if t != [] && (t[0] == '-' || t[0] == '+') then t[1..] else t;
            r.Some? <==> body != [] && IsDigit(body[0])
  {
    var t := TrimStart(value);
    var negative := t != [] && t[0] == '-';
    var body := if t != [] && (t[0] == '-' || t[0] == '+') then t[1..] else t;
    var k := DigitRun(body);
    if k == 0 then None
    else
      var magnitude := DigitsValue(body[..k]);
      Some(if negative then -(magnitude as int) else magnitude)
  }

  /** A decimal rendering of a natural number parses back to it. */
  lemma {:induction false} ParseIntPrefixOfNat(n: nat)
    ensures ParseIntPrefix(NatToString(n)) == Some(n)
  {
    var s := NatToString(n);
    assert !IsWhitespace(s[0]);
    assert TrimStart(s) == s;
    assert s[0] != '-' && s[0] != '+';
    DigitRunAll(s);
    assert s[..|s|] == s;
    NatToStringValue(n);
  }

  lemma {:induction false} DigitRunAll(s: string)
    requires forall i :: 0 <= i < |s| ==> IsDigit(s[i])
    ensures DigitRun(s) == |s|
  {
    if s != [] {
      DigitRunAll(s[1..]);
    }
  }

  /** `s.split(/[;,]/)` for a separator predicate given by a set of characters. */
  function Split(s: string, seps: set<char>): (r: seq<string>)
    ensures |r| >= 1
    ensures forall i :: 0 <= i < |r| ==> forall j :: 0 <= j < |r[i]| ==> r[i][j] !in seps
    decreases |s|
  {
    if s == [] then [""]
    else
      var rest := Split(s[1..], seps);
      if s[0] in seps then [""] + rest else [[s[0]] + rest[0]] + rest[1..]
  }

  /** Text without a separator is one piece. */
  lemma {:induction false} SplitNoSeparator(s: string, seps: set<char>)
    requires forall j :: 0 <= j < |s| ==> s[j] !in seps
    ensures Split(s, seps) == [s]
    decreases |s|
  {
    if s != [] {
      SplitNoSeparator(s[1..], seps);
      assert [s[0]] + s[1..] == s;
    }
  }

  /** A separator after separator-free text ends the first piece there. */
  lemma {:induction false} SplitAtSeparator(a: string, c: char, b: string, seps: set<char>)
    requires c in seps && forall j :: 0 <= j < |a| ==> a[j] !in seps
    ensures Split(a + [c] + b, seps) == [a] + Split(b, seps)
    decreases |a|
  {
    if a == [] {
      assert a + [c] + b == [c] + b && ([c] + b)[1..] == b;
    } else {
      SplitAtSeparator(a[1..], c, b, seps);
      assert (a + [c] + b)[1..] == a[1..] + [c] + b;
      assert [a[0]] + a[1..] == a;
    }
  }

  /** Gluing the pieces back with the separators that were removed gives `s` back. */
  function JoinWith(parts: seq<string>, sep: string): string {
    if parts == [] then ""
    else if |parts| == 1 then parts[0]
    else parts[0] + sep + JoinWith(parts[1..], sep)
  }

  /** Characters of `s` with the separators left out. */
  function Without(s: string, seps: set<char>): string {
    if s == [] then "" else (if s[0] in seps then "" else [s[0]]) + Without(s[1..], seps)
  }

  function Concat(parts: seq<string>): string {
    if parts == [] then "" else parts[0] + Concat(parts[1..])
  }

  /** Splitting loses only the separators: the pieces concatenate to `s` without them. */
  lemma {:induction false} SplitKeepsText(s: string, seps: set<char>)
    ensures Concat(Split(s, seps)) == Without(s, seps)
    decreases |s|
  {
    if s != [] {
      var rest := Split(s[1..], seps);
      SplitKeepsText(s[1..], seps);
      if s[0] !in seps {
        var r := Split(s, seps);
        assert r[1..] == rest[1..];
        assert Concat(rest) == rest[0] + Concat(rest[1..]);
        assert Concat(r) == [s[0]] + rest[0] + Concat(rest[1..]);
      }
    }
  }

  /** UTF-8 encoding of a string, as `writeFile(path, text, "utf8")` stores it. */
  function Utf8Encode(s: string): (r: seq<byte>)
    ensures |r| >= |s| && (r == [] <==> s == [])
  {
    if s == [] then []
    else
      var n := s[0] as int;
      var head: seq<byte> :=
        if n < 0x80 then [n as byte]
        else if n < 0x800 then [(0xC0 + n / 64) as byte, (0x80 + n % 64) as byte]
        else if n < 0x10000 then
          [(0xE0 + n / 4096) as byte, (0x80 + (n / 64) % 64) as byte, (0x80 + n % 64) as byte]
        else
          [(0xF0 + n / 262144) as byte, (0x80 + (n / 4096) % 64) as byte,
           (0x80 + (n / 64) % 64) as byte, (0x80 + n % 64) as byte];
      head + Utf8Encode(s[1..])
  }
}
