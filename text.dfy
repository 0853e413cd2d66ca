/** The string operations the Python code leans on (`str.strip`, `str.upper`,
    `str.lower`, `str.replace("\ufeff", "")`, `int(...)` and `str(int)`),
    restricted to ASCII. */
module Text {
  import opened Values

  /** Python's `str.isspace()` on ASCII: tab, line feed, vertical tab, form
      feed, carriage return, the separators 0x1C-0x1F and the space. */
  predicate IsSpace(c: char) {
    c == ' ' || ('\t' <= c <= '\r') || ('\U{1C}' <= c <= '\U{1F}')
  }

  predicate AllSpaces(s: string) {
    forall k :: 0 <= k < |s| ==> IsSpace(s[k])
  }

  /** No whitespace at either end. */
  predicate Trimmed(s: string) {
    s == [] || (!IsSpace(s[0]) && !IsSpace(s[|s| - 1]))
  }

  /** `str.lstrip()`: the longest suffix that does not start with whitespace. */
  function TrimLeft(s: string): (r: string)
    ensures r == [] || !IsSpace(r[0])
  {
    if |s| > 0 && IsSpace(s[0]) then TrimLeft(s[1..]) else s
  }

  /** `str.rstrip()`: the longest prefix that does not end with whitespace. */
  function TrimRight(s: string): (r: string)
    ensures r == [] || !IsSpace(r[|r| - 1])
    ensures |r| <= |s|
    ensures r != [] ==> r[0] == s[0]
    ensures s != [] && !IsSpace(s[0]) ==> r != []
  {
    if |s| > 0 && IsSpace(s[|s| - 1]) then TrimRight(s[..|s| - 1]) else s
  }

  /** `str.strip()`. */
  function Strip(s: string): (r: string)
    ensures Trimmed(r)
  {
    TrimRight(TrimLeft(s))
  }

  lemma {:induction false} TrimLeftSpaces(a: string, s: string)
    requires AllSpaces(a)
    ensures TrimLeft(a + s) == TrimLeft(s)
    decreases |a|
  {
    if a != [] {
      assert (a + s)[0] == a[0] && (a + s)[1..] == a[1..] + s;
      TrimLeftSpaces(a[1..], s);
    } else {
      assert a + s == s;
    }
  }

  lemma {:induction false} TrimRightSpaces(s: string, b: string)
    requires AllSpaces(b)
    ensures TrimRight(s + b) == TrimRight(s)
    decreases |b|
  {
    if b != [] {
      assert (s + b)[|s + b| - 1] == b[|b| - 1];
      assert (s + b)[..|s + b| - 1] == s + b[..|b| - 1];
      TrimRightSpaces(s, b[..|b| - 1]);
    } else {
      assert s + b == s;
    }
  }

  /** Stripping only ever removes whitespace: a string made of whitespace, a
      trimmed core and whitespace strips to exactly that core. */
  lemma StripUnique(a: string, r: string, b: string)
    requires AllSpaces(a) && AllSpaces(b) && Trimmed(r)
    ensures Strip(a + r + b) == r
  {
    assert a + r + b == a + (r + b);
    TrimLeftSpaces(a, r + b);
    if r == [] {
      assert r + b == b + [];
      TrimLeftSpaces(b, []);
    } else {
      TrimRightSpaces(r, b);
    }
  }

  lemma AppendAssoc(x: string, y: string, z: string)
    ensures x + (y + z) == x + y + z
  {
  }

  lemma AllSpacesAppend(x: string, y: string)
    requires AllSpaces(x) && AllSpaces(y)
    ensures AllSpaces(x + y)
  {
  }

  /** `lstrip()` removes only leading whitespace. */
  lemma {:induction false} LeftSplit(s: string) returns (a: string)
    ensures s == a + TrimLeft(s) && AllSpaces(a)
    decreases |s|
  {
    if |s| > 0 && IsSpace(s[0]) {
      var a' := LeftSplit(s[1..]);
      a := [s[0]] + a';
      AppendAssoc([s[0]], a', TrimLeft(s[1..]));
      assert s == [s[0]] + s[1..];
    } else {
      a := [];
      assert s == [] + s;
    }
  }

  /** `rstrip()` removes only trailing whitespace. */
  lemma {:induction false} RightSplit(s: string) returns (b: string)
    ensures s == TrimRight(s) + b && AllSpaces(b)
    decreases |s|
  {
    if |s| > 0 && IsSpace(s[|s| - 1]) {
      var s' := s[..|s| - 1];
      var b' := RightSplit(s');
      b := b' + [s[|s| - 1]];
      AppendAssoc(TrimRight(s'), b', [s[|s| - 1]]);
      assert s == s' + [s[|s| - 1]];
    } else {
      b := [];
      assert s == s + [];
    }
  }

  /** Every string is whitespace, its stripped core and whitespace. */
  lemma StripSplit(s: string) returns (a: string, b: string)
    ensures s == a + Strip(s) + b
    ensures AllSpaces(a) && AllSpaces(b)
  {
    var l := TrimLeft(s);
    a := LeftSplit(s);
    b := RightSplit(l);
    var r := Strip(s);
    assert r == TrimRight(l);
    assert s == a + (r + b);
    AppendAssoc(a, r, b);
  }

  /** Whitespace added around a string does not change what it strips to. */
  lemma StripPadding(p: string, s: string, q: string)
    requires AllSpaces(p) && AllSpaces(q)
    ensures Strip(p + s + q) == Strip(s)
  {
    var a, b := StripSplit(s);
    var r := Strip(s);
    calc {
      p + s + q;
      p + (a + r + b) + q;
      { AppendAssoc(p, a + r, b); AppendAssoc(p, a, r); }
      (p + a) + r + b + q;
      { AppendAssoc(p + a + r, b, q); }
      (p + a) + r + (b + q);
    }
    AllSpacesAppend(p, a);
    AllSpacesAppend(b, q);
    StripUnique(p + a, r, b + q);
  }

  /** `str.strip()` of the empty string is empty. */
  lemma StripEmpty()
    ensures Strip("") == ""
  {
  }

  /** `str.strip()` leaves a string without surrounding whitespace alone. */
  lemma StripTrimmed(s: string)
    requires Trimmed(s)
    ensures Strip(s) == s
  {
    StripUnique([], s, []);
    assert [] + s + [] == s;
  }

  /** `str.strip()` is idempotent. */
  lemma StripIdempotent(s: string)
    ensures Strip(Strip(s)) == Strip(s)
  {
    StripTrimmed(Strip(s));
  }

  /** `str.strip()` only removes characters. */
  lemma StripChars(s: string)
    ensures forall ch :: ch in Strip(s) ==> ch in s
  {
    var a, b := StripSplit(s);
    AppendAssoc(a, Strip(s), b);
    assert s == a + (Strip(s) + b);
  }

  predicate IsLowerLetter(c: char) { 'a' <= c <= 'z' }
  predicate IsUpperLetter(c: char) { 'A' <= c <= 'Z' }

  function UpperChar(c: char): char {
    if IsLowerLetter(c) then (c as int - 32) as char else c
  }

  function LowerChar(c: char): char {
    if IsUpperLetter(c) then (c as int + 32) as char else c
  }

  /** `str.upper()` on ASCII letters; every other character is kept. */
  function Upper(s: string): (r: string)
    ensures |r| == |s|
    ensures forall k :: 0 <= k < |s| ==> r[k] == UpperChar(s[k])
  {
    seq(|s|, k requires 0 <= k < |s| => UpperChar(s[k]))
  }

  /** `str.lower()` on ASCII letters; every other character is kept. */
  function Lower(s: string): (r: string)
    ensures |r| == |s|
    ensures forall k :: 0 <= k < |s| ==> r[k] == LowerChar(s[k])
  {
    seq(|s|, k requires 0 <= k < |s| => LowerChar(s[k]))
  }

  lemma UpperIdempotent(s: string)
    ensures Upper(Upper(s)) == Upper(s)
  {
  }

  /** A lower-cased string has no upper-case letter, lower-casing it again
      changes nothing, and a character that is not a lower-case letter
      occurs in it only if it occurred before. */
  lemma LowerShape(s: string, c: char)
    ensures forall k :: 0 <= k < |s| ==> !IsUpperLetter(Lower(s)[k])
    ensures Lower(Lower(s)) == Lower(s)
    ensures c in Lower(s) && !IsLowerLetter(c) ==> c in s
  {
    if c in Lower(s) && !IsLowerLetter(c) {
      var k :| 0 <= k < |s| && Lower(s)[k] == c;
      assert s[k] == c;
    }
  }

  /** Upper-casing forgets the original case. */
  lemma UpperOfLower(s: string)
    ensures Upper(Lower(s)) == Upper(s)
  {
  }

  lemma UpperAppend(x: string, y: string)
    ensures Upper(x + y) == Upper(x) + Upper(y)
  {
  }

  lemma LowerAppend(x: string, y: string)
    ensures Lower(x + y) == Lower(x) + Lower(y)
  {
  }

  /** Case mapping neither creates nor removes whitespace, so it commutes with
      `strip()`. */
  lemma StripUpper(s: string)
    ensures Strip(Upper(s)) == Upper(Strip(s))
  {
    var a, b := StripSplit(s);
    var r := Strip(s);
    assert Upper(s) == Upper(a) + Upper(r) + Upper(b) by {
      UpperAppend(a, r);
      UpperAppend(a + r, b);
    }
    assert AllSpaces(Upper(a)) && AllSpaces(Upper(b)) by {
      assert forall k :: 0 <= k < |a| ==> Upper(a)[k] == UpperChar(a[k]);
      assert forall k :: 0 <= k < |b| ==> Upper(b)[k] == UpperChar(b[k]);
    }
    assert Trimmed(Upper(r)) by {
      assert r != [] ==> !IsSpace(Upper(r)[0]) && !IsSpace(Upper(r)[|r| - 1]);
    }
    StripUnique(Upper(a), Upper(r), Upper(b));
  }


  lemma StripLower(s: string)
    ensures Strip(Lower(s)) == Lower(Strip(s))
  {
    var a, b := StripSplit(s);
    var r := Strip(s);
    assert Lower(s) == Lower(a) + Lower(r) + Lower(b) by {
      LowerAppend(a, r);
      LowerAppend(a + r, b);
    }
    assert AllSpaces(Lower(a)) && AllSpaces(Lower(b)) by {
      assert forall k :: 0 <= k < |a| ==> Lower(a)[k] == LowerChar(a[k]);
      assert forall k :: 0 <= k < |b| ==> Lower(b)[k] == LowerChar(b[k]);
    }
    assert Trimmed(Lower(r)) by {
      assert r != [] ==> !IsSpace(Lower(r)[0]) && !IsSpace(Lower(r)[|r| - 1]);
    }
    StripUnique(Lower(a), Lower(r), Lower(b));
  }


  const Bom: char := '\U{FEFF}'

  /** `s.replace(c, "")`: every occurrence of `c` removed, the rest kept in order. */
  function RemoveChar(s: string, c: char): (r: string)
    ensures c !in r
    ensures |r| <= |s|
    ensures forall x :: x in r <==> x in s && x != c
  {
    if s == [] then []
    else (if s[0] == c then [] else [s[0]]) + RemoveChar(s[1..], c)
  }

  lemma {:induction false} RemoveCharAbsent(s: string, c: char)
    requires c !in s
    ensures RemoveChar(s, c) == s
  {
    if s != [] {
      RemoveCharAbsent(s[1..], c);
    }
  }

  /** Removing a character distributes over concatenation. */
  lemma {:induction false} RemoveCharAppend(a: string, b: string, c: char)
    ensures RemoveChar(a + b, c) == RemoveChar(a, c) + RemoveChar(b, c)
    decreases |a|
  {
    if a == [] {
      assert a + b == b;
    } else {
      assert (a + b)[0] == a[0];
      assert (a + b)[1..] == a[1..] + b;
      RemoveCharAppend(a[1..], b, c);
      AppendAssoc(if a[0] == c then [] else [a[0]], RemoveChar(a[1..], c), RemoveChar(b, c));
    }
  }

  // ---------------------------------------------------------------------------
  // Integers as decimal text

  predicate IsDigit(c: char) { '0' <= c <= '9' }

  predicate AllDigits(s: string) {
    forall k :: 0 <= k < |s| ==> IsDigit(s[k])
  }

  function DigitValue(c: char): nat
    requires IsDigit(c)
  {
    c as int - '0' as int
  }

  function DigitChar(d: nat): (c: char)
    requires d < 10
    ensures IsDigit(c) && DigitValue(c) == d
  {
    ('0' as int + d) as char
  }

  /** The value of a string of decimal digits, most significant first. */
  function DigitsValue(s: string): nat
    requires AllDigits(s)
  {
    if s == [] then 0 else DigitsValue(s[..|s| - 1]) * 10 + DigitValue(s[|s| - 1])
  }

  /** `int(s)` for `s` already stripped: an optional sign followed by at least
      one ASCII digit; anything else is the `ValueError` path. */
  function ParseInt(s: string): (r: Option<int>)
    ensures r.Some? <==>
              (s != [] && AllDigits(s) ) ||
              (|s| >= 2 && (s[0] == '+' || s[0] == '-') && AllDigits(s[1..]))
  {
    if s == [] then None
    else if s[0] == '+' || s[0] == '-' then
      if |s| >= 2 && AllDigits(s[1..]) then
        var v: int := DigitsValue(s[1..]);
        Some(if s[0] == '-' then -v else v)
      else None
    else if AllDigits(s) then Some(DigitsValue(s))
    else None
  }

  /** Decimal digits of a natural number, without leading zeros. */
  function ShowNat(n: nat): (r: string)
    ensures r != [] && AllDigits(r)
  {
    if n < 10 then [DigitChar(n)] else ShowNat(n / 10) + [DigitChar(n % 10)]
  }

  /** `str(n)` for a Python int. */
  function ShowInt(n: int): (r: string)
    ensures r != []
  {
    if n < 0 then "-" + ShowNat(-n) else ShowNat(n)
  }

  /** `str(n)` never has whitespace around it, so it never strips to "". */
  lemma ShowIntStripped(n: int)
    ensures Strip(ShowInt(n)) == ShowInt(n) != ""
  {
    var s := ShowInt(n);
    assert !IsSpace(s[0]) && !IsSpace(s[|s| - 1]);
    StripTrimmed(s);
  }

  lemma {:induction false} DigitsValueShowNat(n: nat)
    ensures DigitsValue(ShowNat(n)) == n
  {
    if n >= 10 {
      var s := ShowNat(n);
      assert s[..|s| - 1] == ShowNat(n / 10);
      DigitsValueShowNat(n / 10);
    }
  }

  /** `int(str(n)) == n`. */
  lemma ParseShowInt(n: int)
    ensures ParseInt(ShowInt(n)) == Some(n)
  {
    if n < 0 {
      var s := ShowInt(n);
      assert s[1..] == ShowNat(-n);
      DigitsValueShowNat(-n);
    } else {
      DigitsValueShowNat(n);
    }
  }

  /** `str(v)` for a cell value. */
  function Display(v: Value): string {
    match v
    case Str(s) => s
    case Int(n) => ShowInt(n)
  }
}
