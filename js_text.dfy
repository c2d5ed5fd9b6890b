/** The pieces of JavaScript string semantics the core relies on:
    the whitespace set of `String.prototype.trim` and of the regex class `\s`,
    `trim()` itself, and decimal digit strings as produced by
    `Number.prototype.toString` and read back by `parseInt`.
    A string is a sequence of characters; one character stands for one
    UTF-16 code unit of the source. */
module JsText {

  /** WhiteSpace and LineTerminator code points of ECMAScript: what `trim()`
      strips and what `\s` matches. */
  predicate IsJsWhitespace(c: char)
  {
    || c == '\t' || c == '\n' || c == '\U{000B}' || c == '\U{000C}' || c == '\r'
    || c == ' ' || c == '\U{00A0}' || c == '\U{1680}'
    || ('\U{2000}' <= c <= '\U{200A}')
    || c == '\U{2028}' || c == '\U{2029}' || c == '\U{202F}' || c == '\U{205F}'
    || c == '\U{3000}' || c == '\U{FEFF}'
  }

  /** `s.trim()` is truthy: some character is not whitespace. */
  predicate HasContent(s: string)
    decreases |s|
  {
    s != [] && (!IsJsWhitespace(s[0]) || HasContent(s[1..]))
  }

  lemma {:induction false} HasContentAt(s: string)
    ensures HasContent(s) <==> exists i :: 0 <= i < |s| && !IsJsWhitespace(s[i])
    decreases |s|
  {
    if s != [] {
      HasContentAt(s[1..]);
      if exists i :: 0 <= i < |s| && !IsJsWhitespace(s[i]) {
        var i :| 0 <= i < |s| && !IsJsWhitespace(s[i]);
        if i > 0 {
          assert !IsJsWhitespace(s[1..][i - 1]);
        }
      }
    }
  }

  /** `s.trimStart()`: the suffix left after dropping leading whitespace. */
  function TrimStart(s: string): (r: string)
    ensures |r| <= |s| && r == s[|s| - |r|..]
    ensures r == [] || !IsJsWhitespace(r[0])
    ensures forall i :: 0 <= i < |s| - |r| ==> IsJsWhitespace(s[i])
  {
    if s != [] && IsJsWhitespace(s[0]) then TrimStart(s[1..]) else s
  }

  /** `s.trimEnd()`: the prefix left after dropping trailing whitespace. */
  function TrimEnd(s: string): (r: string)
    ensures |r| <= |s| && r == s[..|r|]
    ensures r == [] || !IsJsWhitespace(r[|r| - 1])
    ensures forall i :: |r| <= i < |s| ==> IsJsWhitespace(s[i])
  {
    if s != [] && IsJsWhitespace(s[|s| - 1]) then TrimEnd(s[..|s| - 1]) else s
  }

  /** `s.trim()`. */
  function Trim(s: string): string
  {
    TrimEnd(TrimStart(s))
  }

  /** `trim()` keeps a contiguous slice of its input: it starts and ends on a
      non-whitespace character and only whitespace lies outside it. */
  lemma TrimIsSlice(s: string)
    ensures exists a, b :: (0 <= a <= b <= |s| && Trim(s) == s[a..b]
                           && (forall i :: 0 <= i < a ==> IsJsWhitespace(s[i]))
                           && (forall i :: b <= i < |s| ==> IsJsWhitespace(s[i])))
    ensures Trim(s) != [] ==> !IsJsWhitespace(Trim(s)[0]) && !IsJsWhitespace(Trim(s)[|Trim(s)| - 1])
  {
    var t := TrimStart(s);
    var a := |s| - |t|;
    var r := TrimEnd(t);
    assert r == s[a..a + |r|];
    forall i | a + |r| <= i < |s| ensures IsJsWhitespace(s[i]) {
      assert s[i] == t[i - a];
    }
  }

  /** The truthiness test `if (s.trim())` of the source. */
  lemma TrimEmptyIffBlank(s: string)
    ensures Trim(s) == [] <==> !HasContent(s)
  {
    HasContentAt(s);
    var t := TrimStart(s);
    var a := |s| - |t|;
    if Trim(s) == [] {
      assert t == [];
    } else {
      assert !IsJsWhitespace(s[a]);
    }
  }

  predicate IsDigit(c: char)
  {
    '0' <= c <= '9'
  }

  predicate AllDigits(s: string)
  {
    forall i :: 0 <= i < |s| ==> IsDigit(s[i])
  }

  function DigitChar(d: nat): (c: char)
    requires d < 10
    ensures IsDigit(c)
  {
    ('0' as int + d) as char
  }

  /** `n.toString()` for a non-negative integer: shortest decimal, no sign. */
  function NatToString(n: nat): (r: string)
    ensures |r| > 0 && AllDigits(r)
    ensures r[0] == '0' ==> r == "0"
    decreases n
  {
    if n < 10 then [DigitChar(n)] else NatToString(n / 10) + [DigitChar(n % 10)]
  }

  /** `parseInt(s, 10)` on a string of decimal digits. */
  function DigitsValue(s: string): nat
    requires AllDigits(s)
  {
    if s == [] then 0 else DigitsValue(s[..|s| - 1]) * 10 + (s[|s| - 1] as int - '0' as int)
  }

  /** Parsing reads back the number that `toString` printed. */
  lemma {:induction false} DigitsValueOfNatToString(n: nat)
    ensures DigitsValue(NatToString(n)) == n
    decreases n
  {
    var r := NatToString(n);
    if n >= 10 {
      DigitsValueOfNatToString(n / 10);
      assert r[..|r| - 1] == NatToString(n / 10);
    }
  }

  /** Different numbers print differently, so array index keys are distinct. */
  lemma NatToStringInjective(a: nat, b: nat)
    requires NatToString(a) == NatToString(b)
    ensures a == b
  {
    DigitsValueOfNatToString(a);
    DigitsValueOfNatToString(b);
  }

  /** A canonical array index key: the string that `toString` prints for the
      number it denotes ("0", "7", "12" but not "", "07" or "x"). */
  predicate IsIndexKey(k: string)
  {
    |k| > 0 && AllDigits(k) && NatToString(DigitsValue(k)) == k
  }

  /** The keys an array exposes to `for`/`extractStrings`: "0", "1", ... */
  function IndexKeys(n: nat): (ks: seq<string>)
    ensures |ks| == n
    ensures forall i :: 0 <= i < n ==> ks[i] == NatToString(i)
  {
    seq(n, i requires 0 <= i => NatToString(i))
  }

  lemma IndexKeyOf(i: nat)
    ensures IsIndexKey(NatToString(i)) && DigitsValue(NatToString(i)) == i
  {
    DigitsValueOfNatToString(i);
  }

  lemma IndexKeysDistinct(n: nat)
    ensures forall i, j :: 0 <= i < j < n ==> IndexKeys(n)[i] != IndexKeys(n)[j]
  {
    forall i, j | 0 <= i < j < n ensures IndexKeys(n)[i] != IndexKeys(n)[j] {
      if NatToString(i) == NatToString(j) { NatToStringInjective(i, j); }
    }
  }

  /** `Math.min` and `Math.max` on integers. */
  function Min(a: int, b: int): int { if a <= b then a else b }
  function Max(a: int, b: int): int { if a <= b then b else a }
}
