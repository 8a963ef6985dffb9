/**
 * Character classes and string helpers shared by the whole pipeline:
 * the classes behind the regular expressions (`\d`, `\s`, `\w`, `[A-Z]`),
 * `str.replace(c, "")`, `str.isdigit()`, `int(...)`, `str(int)`,
 * `str.lower()` and `str.strip()`.
 */
module Chars {

  /** `\d`, restricted to the ASCII digits. */
  predicate IsDigit(c: char) { '0' <= c <= '9' }

  /** `[A-Z]`. */
  predicate IsUpper(c: char) { 'A' <= c <= 'Z' }

  /** `\w`: letter, digit or underscore (ASCII letters). */
  predicate IsWordChar(c: char) { IsDigit(c) || IsUpper(c) || ('a' <= c <= 'z') || c == '_' }

  /** `\s` and `str.isspace()`: the characters Python treats as whitespace. */
  predicate IsSpace(c: char)
  {
    || c == ' '
    || ('\t' <= c <= '\r')
    || ('\U{1c}' <= c <= '\U{1f}')
    || c == '\U{85}' || c == '\U{a0}' || c == '\U{1680}'
    || ('\U{2000}' <= c <= '\U{200a}')
    || c == '\U{2028}' || c == '\U{2029}' || c == '\U{202f}' || c == '\U{205f}' || c == '\U{3000}'
  }

  predicate AllDigits(s: string) { forall i :: 0 <= i < |s| ==> IsDigit(s[i]) }

  /** `s.isdigit()`: false on the empty string. */
  predicate IsDecimal(s: string) { |s| > 0 && AllDigits(s) }

  /** Word character at position p, with positions outside the string counting as non-word. */
  predicate WordAt(s: string, p: int) { 0 <= p < |s| && IsWordChar(s[p]) }

  /** `\b` at position p (0 <= p <= |s|). */
  predicate IsBoundary(s: string, p: int) { WordAt(s, p - 1) != WordAt(s, p) }

  function DigitValue(c: char): nat
    requires IsDigit(c)
  {
    c as int - '0' as int
  }

  function DigitChar(d: nat): (c: char)
    requires d < 10
    ensures IsDigit(c) && DigitValue(c) == d
  {
    ('0' as int + d) as char
  }

  /** `int(s)` on a string of decimal digits (leading zeros allowed). */
  function DecimalValue(s: string): nat
    requires AllDigits(s)
    decreases |s|
  {
    if |s| == 0 then 0 else DecimalValue(s[..|s| - 1]) * 10 + DigitValue(s[|s| - 1])
  }

  /** `str(n)` for a non-negative integer. */
  function ShowNat(n: nat): (r: string)
    ensures IsDecimal(r)
    ensures |r| > 1 ==> r[0] != '0'
  {
    if n < 10 then [DigitChar(n)] else ShowNat(n / 10) + [DigitChar(n % 10)]
  }

  /** Reading back what `str` wrote gives the number again. */
  lemma {:induction false} DecimalValueOfShowNat(n: nat)
    ensures DecimalValue(ShowNat(n)) == n
  {
    if n >= 10 {
      var s := ShowNat(n);
      assert s[..|s| - 1] == ShowNat(n / 10);
      DecimalValueOfShowNat(n / 10);
    }
  }

  /** The characters of s that p does not select, in their original order. */
  function DropWhere(s: string, p: char -> bool): (r: string)
    ensures |r| <= |s|
    ensures forall i :: 0 <= i < |r| ==> !p(r[i])
  {
    if |s| == 0 then []
    else (if p(s[0]) then [] else [s[0]]) + DropWhere(s[1..], p)
  }

  /** Every character p does not select occurs as often in the result as in s. */
  lemma {:induction false} DropWhereCounts(s: string, p: char -> bool, c: char)
    requires !p(c)
    ensures multiset(DropWhere(s, p))[c] == multiset(s)[c]
  {
    if |s| > 0 {
      assert s == [s[0]] + s[1..];
      DropWhereCounts(s[1..], p, c);
    }
  }

  /** Dropping characters commutes with concatenation: order is kept. */
  lemma {:induction false} DropWhereConcat(a: string, b: string, p: char -> bool)
    ensures DropWhere(a + b, p) == DropWhere(a, p) + DropWhere(b, p)
  {
    if |a| > 0 {
      var head := if p(a[0]) then [] else [a[0]];
      assert (a + b)[0] == a[0];
      assert (a + b)[1..] == a[1..] + b;
      calc {
        DropWhere(a + b, p);
        head + DropWhere(a[1..] + b, p);
        { DropWhereConcat(a[1..], b, p); }
        head + (DropWhere(a[1..], p) + DropWhere(b, p));
        (head + DropWhere(a[1..], p)) + DropWhere(b, p);
      }
    } else {
      assert a + b == b;
    }
  }

  lemma {:induction false} DropWhereKeeps(s: string, p: char -> bool)
    requires forall i :: 0 <= i < |s| ==> !p(s[i])
    ensures DropWhere(s, p) == s
  {
    if |s| > 0 {
      DropWhereKeeps(s[1..], p);
    }
  }

  /** `s.replace(c, "")`. */
  function RemoveChar(s: string, c: char): string
  {
    DropWhere(s, x => x == c)
  }

  predicate IsBlank(c: char) { c == ' ' || c == '\n' }

  /** `s.replace(" ", "").replace("\n", "")`: deletes spaces and newlines and nothing else. */
  function Clean(s: string): (r: string)
    ensures r == DropWhere(s, IsBlank)
    ensures forall i :: 0 <= i < |r| ==> r[i] != ' ' && r[i] != '\n'
  {
    CleanIsOneFilter(s);
    RemoveChar(RemoveChar(s, ' '), '\n')
  }

  /** The two successive replacements delete exactly the spaces and the newlines, in one pass. */
  lemma {:induction false} CleanIsOneFilter(s: string)
    ensures RemoveChar(RemoveChar(s, ' '), '\n') == DropWhere(s, IsBlank)
  {
    if |s| > 0 {
      CleanIsOneFilter(s[1..]);
      var rest := RemoveChar(s[1..], ' ');
      var once := RemoveChar(s, ' ');
      if s[0] == ' ' {
        assert once == rest;
      } else {
        assert once == [s[0]] + rest;
        assert once[0] == s[0] && once[1..] == rest;
        assert RemoveChar(once, '\n') == (if s[0] == '\n' then [] else [s[0]]) + RemoveChar(rest, '\n');
      }
    }
  }

  /** Cleaning keeps every other character (tabs, carriage returns, ...) as often as it occurs. */
  lemma CleanCounts(s: string, c: char)
    requires c != ' ' && c != '\n'
    ensures multiset(Clean(s))[c] == multiset(s)[c]
  {
    DropWhereCounts(s, IsBlank, c);
  }

  /** Cleaning distributes over concatenation, so every kept character stays in place relative to the others. */
  lemma CleanConcat(a: string, b: string)
    ensures Clean(a + b) == Clean(a) + Clean(b)
  {
    DropWhereConcat(a, b, IsBlank);
  }

  /** A string without spaces and newlines is left as it is (so cleaning is idempotent). */
  lemma CleanKeeps(s: string)
    requires forall i :: 0 <= i < |s| ==> s[i] != ' ' && s[i] != '\n'
    ensures Clean(s) == s
  {
    DropWhereKeeps(s, IsBlank);
  }

  /** Deleting the one space between two blank-free pieces joins them. */
  lemma CleanAroundSpace(a: string, b: string)
    requires forall i :: 0 <= i < |a| ==> a[i] != ' ' && a[i] != '\n'
    requires forall i :: 0 <= i < |b| ==> b[i] != ' ' && b[i] != '\n'
    ensures Clean(a + " " + b) == a + b
  {
    CleanConcat(a + " ", b);
    CleanConcat(a, " ");
    CleanKeeps(a);
    CleanKeeps(b);
    assert Clean(" ") == [];
  }

  function LowerChar(c: char): char
  {
    if IsUpper(c) then (c as int + 32) as char else c
  }

  /** `s.lower()`, on the ASCII letters: capitals become small letters, every other character stays. */
  function Lower(s: string): (r: string)
    ensures |r| == |s|
    ensures forall i :: 0 <= i < |s| ==>
      if IsUpper(s[i]) then 'a' <= r[i] <= 'z' && r[i] as int == s[i] as int + 32 else r[i] == s[i]
  {
    seq(|s|, i requires 0 <= i < |s| => LowerChar(s[i]))
  }

  /** Index of the first non-whitespace character of s (|s| if none). */
  function LeadEnd(s: string): (k: nat)
    ensures k <= |s|
    ensures forall i :: 0 <= i < k ==> IsSpace(s[i])
    ensures k < |s| ==> !IsSpace(s[k])
  {
    if |s| > 0 && IsSpace(s[0]) then 1 + LeadEnd(s[1..]) else 0
  }

  /** One past the index of the last non-whitespace character of s (0 if none). */
  function TrailStart(s: string): (k: nat)
    ensures k <= |s|
    ensures forall i :: k <= i < |s| ==> IsSpace(s[i])
    ensures k > 0 ==> !IsSpace(s[k - 1])
  {
    if |s| > 0 && IsSpace(s[|s| - 1]) then TrailStart(s[..|s| - 1]) else |s|
  }

  /**
   * `s.strip()`: the slice of s left after removing leading and trailing
   * whitespace; it neither starts nor ends with whitespace.
   */
  function Strip(s: string): (r: string)
    ensures r == "" || (!IsSpace(r[0]) && !IsSpace(r[|r| - 1]))
    ensures exists a, b ::
              && 0 <= a <= b <= |s| && r == s[a..b]
              && (forall i :: 0 <= i < a ==> IsSpace(s[i]))
              && (forall i :: b <= i < |s| ==> IsSpace(s[i]))
  {
    var a := LeadEnd(s);
    var b := TrailStart(s);
    if a < b then s[a..b] else
      assert forall i :: 0 <= i < |s| ==> IsSpace(s[i]);
      s[0..0]
  }

  /** A slice that starts and ends on non-whitespace with only whitespace around it is what `strip()` returns. */
  lemma StripExact(s: string, a: nat, b: nat)
    requires a < b <= |s| && !IsSpace(s[a]) && !IsSpace(s[b - 1])
    requires forall i :: 0 <= i < a ==> IsSpace(s[i])
    requires forall i :: b <= i < |s| ==> IsSpace(s[i])
    ensures Strip(s) == s[a..b]
  {
    assert LeadEnd(s) == a;
    assert TrailStart(s) == b;
  }

  /** Lower-casing neither creates nor removes whitespace. */
  lemma LowerKeepsSpaces(s: string)
    ensures forall i :: 0 <= i < |s| ==> (IsSpace(Lower(s)[i]) <==> IsSpace(s[i]))
  {
  }

  /** Lower-casing works character by character, so it commutes with slicing. */
  lemma LowerSlice(s: string, a: nat, b: nat)
    requires a <= b <= |s|
    ensures Lower(s)[a..b] == Lower(s[a..b])
  {
  }
}
