/** Models of the JavaScript string built-ins the colour code relies on:
    `String.prototype.trim`, the regular-expression classes `\s` and `\d`,
    `Number.prototype.toString(base)` on integers, `parseInt(text, base)` on
    a run of digits, `padStart` and `toUpperCase` on ASCII text. */
module JsText {

  /** JavaScript white space: the WhiteSpace and LineTerminator code points,
      which `\s` matches and `trim` removes. */
  predicate IsSpace(c: char) {
    var n := c as int;
    (9 <= n <= 13) || n == 32 || n == 0xA0 || n == 0x1680 || (0x2000 <= n <= 0x200A)
    || n == 0x2028 || n == 0x2029 || n == 0x202F || n == 0x205F || n == 0x3000 || n == 0xFEFF
  }

  predicate AllSpaces(s: string) {
    forall i :: 0 <= i < |s| ==> IsSpace(s[i])
  }

  /** No white space at either end. */
  predicate Trimmed(s: string) {
    s == [] || (!IsSpace(s[0]) && !IsSpace(s[|s| - 1]))
  }

  function TrimStart(s: string): (r: string)
    ensures |r| <= |s|
    ensures r == [] || !IsSpace(r[0])
  {
    if |s| > 0 && IsSpace(s[0]) then TrimStart(s[1..]) else s
  }

  /** `TrimStart` removes a prefix made only of white space. */
  lemma {:induction false} TrimStartDrops(s: string)
    ensures TrimStart(s) == s[|s| - |TrimStart(s)|..]
    ensures AllSpaces(s[..|s| - |TrimStart(s)|])
  {
    if |s| > 0 && IsSpace(s[0]) {
      TrimStartDrops(s[1..]);
      assert s[1..][..|s| - 1 - |TrimStart(s)|] == s[1..|s| - |TrimStart(s)|];
    }
  }

  function TrimEnd(s: string): (r: string)
    ensures |r| <= |s| && r == s[..|r|]
    ensures AllSpaces(s[|r|..])
    ensures r == [] || !IsSpace(r[|r| - 1])
  {
    if |s| > 0 && IsSpace(s[|s| - 1]) then
      var r := TrimEnd(s[..|s| - 1]);
      assert s[|r|..] == s[..|s| - 1][|r|..] + [s[|s| - 1]];
      r
    else s
  }

  /** `s.trim()` */
  function Trim(s: string): (r: string)
    ensures Trimmed(r)
    ensures |r| <= |s|
  {
    TrimEnd(TrimStart(s))
  }

  lemma {:induction false} TrimStartOfSpaces(a: string, u: string)
    requires AllSpaces(a)
    requires u == [] || !IsSpace(u[0])
    ensures TrimStart(a + u) == u
  {
    if a != [] {
      assert (a + u)[1..] == a[1..] + u;
      TrimStartOfSpaces(a[1..], u);
    } else {
      assert a + u == u;
    }
  }

  lemma {:induction false} TrimEndOfSpaces(u: string, b: string)
    requires AllSpaces(b)
    requires u == [] || !IsSpace(u[|u| - 1])
    ensures TrimEnd(u + b) == u
  {
    if b != [] {
      assert (u + b)[..|u + b| - 1] == u + b[..|b| - 1];
      TrimEndOfSpaces(u, b[..|b| - 1]);
    } else {
      assert u + b == u;
    }
  }

  /** Trimming removes exactly the white space around a text: whatever white
      space surrounds `t`, `trim` gives back `t`. With `Trim`'s own contract
      this determines `Trim` completely. */
  lemma TrimOfPadded(a: string, t: string, b: string)
    requires AllSpaces(a) && AllSpaces(b) && Trimmed(t)
    ensures Trim(a + t + b) == t
  {
    if t == [] {
      assert a + t + b == a + b;
      assert AllSpaces(a + b);
      TrimStartOfSpaces(a + b, []);
      assert a + b + [] == a + b;
      assert TrimStart(a + b) == [];
    } else {
      assert a + t + b == a + (t + b);
      TrimStartOfSpaces(a, t + b);
      TrimEndOfSpaces(t, b);
    }
  }

  /** Every text is its trimmed form with white space around it. */
  lemma TrimSplits(s: string) returns (a: string, b: string)
    ensures AllSpaces(a) && AllSpaces(b) && s == a + Trim(s) + b
  {
    TrimStartDrops(s);
    var u := TrimStart(s);
    a := s[..|s| - |u|];
    b := u[|Trim(s)|..];
    assert u == Trim(s) + b;
    assert s == a + u;
  }

  lemma AllSpacesAppend(a: string, b: string)
    requires AllSpaces(a) && AllSpaces(b)
    ensures AllSpaces(a + b)
  {
    forall i | 0 <= i < |a + b| ensures IsSpace((a + b)[i]) {
      if i >= |a| {
        assert (a + b)[i] == b[i - |a|];
      }
    }
  }

  // ---------------------------------------------------------------- digits

  predicate IsDigit(c: char) { '0' <= c <= '9' }

  predicate IsHexDigit(c: char) { IsDigit(c) || 'a' <= c <= 'f' || 'A' <= c <= 'F' }

  predicate AllDigits(s: string) { forall i :: 0 <= i < |s| ==> IsDigit(s[i]) }

  /** The lower-case digit `toString` writes for the value `d`. */
  function DigitChar(d: nat): (c: char)
    requires d < 16
    ensures IsHexDigit(c) && !('A' <= c <= 'F')
    ensures d < 10 <==> IsDigit(c)
    ensures DigitValue(c) == d
  {
    if d < 10 then ('0' as int + d) as char else ('a' as int + d - 10) as char
  }

  /** The value `parseInt` gives one digit, in either case (0 for a
      character that is not a digit, which `parseInt` never reaches here). */
  function DigitValue(c: char): (d: nat)
    ensures d < 16
    ensures IsHexDigit(c) ==> (IsDigit(c) <==> d < 10)
  {
    if IsDigit(c) then c as int - '0' as int
    else if 'a' <= c <= 'f' then c as int - 'a' as int + 10
    else if 'A' <= c <= 'F' then c as int - 'A' as int + 10
    else 0
  }

  /** `n.toString(base)` for a non-negative integer: most significant digit
      first, no leading zeros. */
  function NatText(n: nat, base: nat): (r: string)
    requires 2 <= base <= 16
    ensures |r| >= 1
    decreases n
  {
    if n < base then [DigitChar(n)]
    else
      DivMod(n, base);
      NatText(n / base, base) + [DigitChar(n % base)]
  }

  /** Every character `toString(base)` writes is a digit of that base. */
  lemma {:induction false} NatTextDigits(n: nat, base: nat)
    requires 2 <= base <= 16
    ensures forall i :: 0 <= i < |NatText(n, base)| ==>
      IsHexDigit(NatText(n, base)[i]) && DigitValue(NatText(n, base)[i]) < base
    decreases n
  {
    if n >= base {
      DivMod(n, base);
      NatTextDigits(n / base, base);
      var q := NatText(n / base, base);
      var r := NatText(n, base);
      assert r == q + [DigitChar(n % base)];
      forall i | 0 <= i < |r| ensures IsHexDigit(r[i]) && DigitValue(r[i]) < base {
        if i < |q| {
          assert r[i] == q[i];
        } else {
          assert r[i] == DigitChar(n % base);
        }
      }
    }
  }

  lemma DivMod(n: nat, base: nat)
    requires 2 <= base && n >= base
    ensures n / base < n && n % base < base && n == (n / base) * base + n % base
  {
  }

  /** `n.toString(base)` for any integer: a minus sign before the magnitude. */
  function IntText(n: int, base: nat): (r: string)
    requires 2 <= base <= 16
    ensures n < 0 <==> (|r| > 0 && r[0] == '-')
  {
    if n < 0 then "-" + NatText(-n, base)
    else
      NatTextDigits(n, base);
      NatText(n, base)
  }

  /** How a JavaScript template literal writes an integer: `${n}`. */
  function DecimalText(n: int): string {
    IntText(n, 10)
  }

  /** `parseInt(s, base)` on a non-empty run of digits of that base. */
  function DigitsValue(s: string, base: nat): nat
  {
    if s == [] then 0 else DigitsValue(s[..|s| - 1], base) * base + DigitValue(s[|s| - 1])
  }

  lemma DigitsValueSnoc(t: string, c: char, base: nat)
    ensures DigitsValue(t + [c], base) == DigitsValue(t, base) * base + DigitValue(c)
  {
    assert (t + [c])[..|t|] == t;
  }

  /** Reading back what `toString(base)` wrote gives the number. */
  lemma {:induction false} NatTextValue(n: nat, base: nat)
    requires 2 <= base <= 16
    ensures DigitsValue(NatText(n, base), base) == n
    decreases n
  {
    if n < base {
      assert [DigitChar(n)][..0] == [];
    } else {
      var q, d := n / base, n % base;
      DivMod(n, base);
      NatTextValue(q, base);
      DigitsValueSnoc(NatText(q, base), DigitChar(d), base);
    }
  }

  lemma DecimalTextOfNat(n: nat)
    ensures DecimalText(n) == NatText(n, 10)
    ensures AllDigits(DecimalText(n)) && |DecimalText(n)| >= 1
  {
    var s := NatText(n, 10);
    NatTextDigits(n, 10);
    forall i | 0 <= i < |s| ensures IsDigit(s[i]) {
      assert DigitValue(s[i]) < 10;
    }
  }

  // ---------------------------------------------------------------- case and padding

  function UpperChar(c: char): char {
    if 'a' <= c <= 'z' then (c as int - 32) as char else c
  }

  function LowerChar(c: char): char {
    if 'A' <= c <= 'Z' then (c as int + 32) as char else c
  }

  /** `s.toUpperCase()` on ASCII text. */
  function ToUpper(s: string): (r: string)
    ensures |r| == |s| && forall i :: 0 <= i < |s| ==> r[i] == UpperChar(s[i])
  {
    seq(|s|, i requires 0 <= i < |s| => UpperChar(s[i]))
  }

  /** The case folding a `/…/i` pattern applies to ASCII letters. */
  function ToLower(s: string): (r: string)
    ensures |r| == |s| && forall i :: 0 <= i < |s| ==> r[i] == LowerChar(s[i])
  {
    seq(|s|, i requires 0 <= i < |s| => LowerChar(s[i]))
  }

  lemma ToUpperAppend(a: string, b: string)
    ensures ToUpper(a + b) == ToUpper(a) + ToUpper(b)
  {
  }

  /** `s.padStart(width, fill)` with a one-character fill. */
  function PadStart(s: string, width: nat, fill: char): (r: string)
    ensures |r| == if |s| >= width then |s| else width
    decreases width - |s|
  {
    if |s| >= width then s else PadStart([fill] + s, width, fill)
  }

  /** Padding puts copies of the fill before the text and nothing after it. */
  lemma {:induction false} PadStartShape(s: string, width: nat, fill: char)
    ensures var r := PadStart(s, width, fill);
      r[|r| - |s|..] == s && forall i :: 0 <= i < |r| - |s| ==> r[i] == fill
    decreases width - |s|
  {
    if |s| < width {
      var t := [fill] + s;
      PadStartShape(t, width, fill);
      var r := PadStart(s, width, fill);
      assert r == PadStart(t, width, fill);
      assert r[|r| - |t|..] == t;
      assert r[|r| - |s|..] == t[1..];
    }
  }
}
