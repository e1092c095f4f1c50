/** String helpers the forum's Go code takes from the standard library:
    `unicode.IsSpace`, `strings.TrimSpace`, `strings.Fields`, `strings.Join`,
    `strings.HasPrefix`, `strconv.Itoa` and `strconv.Atoi`.

    A Go string is modelled as the sequence of its runes (`seq<char>`), so the
    rune count of `utf8.RuneCountInString` is simply `|s|`. */
module Strings {
  import opened Wrappers

  /** The white-space runes of Go's `unicode.IsSpace`: the Latin-1 set
      '\t', '\n', '\v', '\f', '\r', ' ', U+0085, U+00A0, and above Latin-1
      the Unicode White_Space property. */
  predicate IsSpace(c: char): (b: bool)
    ensures (c as int) <= 0xFF ==> (b <==> (c as int) in {0x09, 0x0A, 0x0B, 0x0C, 0x0D, 0x20, 0x85, 0xA0})
    ensures b ==> (c as int) < 0x80 || (c as int) == 0x85 || (c as int) == 0xA0 || (c as int) >= 0x1680
  {
    var n := c as int;
    || 0x09 <= n <= 0x0D
    || n == 0x20
    || n == 0x85
    || n == 0xA0
    || n == 0x1680
    || 0x2000 <= n <= 0x200A
    || n == 0x2028
    || n == 0x2029
    || n == 0x202F
    || n == 0x205F
    || n == 0x3000
  }

  predicate AllSpace(s: string) {
    forall i :: 0 <= i < |s| ==> IsSpace(s[i])
  }

  predicate NoSpace(s: string) {
    forall i :: 0 <= i < |s| ==> !IsSpace(s[i])
  }

  /** `s` without its leading white space. */
  function TrimLeft(s: string): (r: string)
    ensures |r| <= |s|
    ensures r == [] || !IsSpace(r[0])
  {
    if s == [] || !IsSpace(s[0]) then s else TrimLeft(s[1..])
  }

  /** What `TrimLeft` drops is a white-space prefix. */
  lemma {:induction false} TrimLeftSuffix(s: string)
    ensures TrimLeft(s) == s[|s| - |TrimLeft(s)|..]
    ensures AllSpace(s[..|s| - |TrimLeft(s)|])
  {
    if s != [] && IsSpace(s[0]) {
      var r := TrimLeft(s[1..]);
      TrimLeftSuffix(s[1..]);
      assert s[..|s| - |r|] == [s[0]] + s[1..][..|s| - 1 - |r|];
    }
  }

  /** `s` without its trailing white space. */
  function TrimRight(s: string): (r: string)
    ensures |r| <= |s|
    ensures r == [] || !IsSpace(r[|r| - 1])
  {
    if s == [] || !IsSpace(s[|s| - 1]) then s else TrimRight(s[..|s| - 1])
  }

  /** What `TrimRight` drops is a white-space suffix. */
  lemma {:induction false} TrimRightPrefix(s: string)
    ensures TrimRight(s) == s[..|TrimRight(s)|]
    ensures AllSpace(s[|TrimRight(s)|..])
  {
    if s != [] && IsSpace(s[|s| - 1]) {
      var r := TrimRight(s[..|s| - 1]);
      TrimRightPrefix(s[..|s| - 1]);
      assert s[|r|..] == s[..|s| - 1][|r|..] + [s[|s| - 1]];
    }
  }

  /** Go's `strings.TrimSpace`: `s` without its leading and trailing runs
      of white space. */
  function TrimSpace(s: string): (r: string)
    ensures |r| <= |s|
    ensures r == [] || (!IsSpace(r[0]) && !IsSpace(r[|r| - 1]))
  {
    TrimRightPrefix(TrimLeft(s));
    TrimRight(TrimLeft(s))
  }

  /** The trimmed string is the slice of `s` between a white-space prefix
      and a white-space suffix. */
  lemma TrimSpaceSlice(s: string) returns (i: nat, j: nat)
    ensures i <= j <= |s| && TrimSpace(s) == s[i..j] && AllSpace(s[..i]) && AllSpace(s[j..])
  {
    var t := TrimLeft(s);
    var r := TrimRight(t);
    TrimLeftSuffix(s);
    TrimRightPrefix(t);
    i := |s| - |t|;
    j := i + |r|;
    assert r == s[i..j];
    assert s[j..] == t[|r|..];
  }

  /** Trimming leaves nothing exactly when the string is all white space
      (the empty string included). */
  lemma TrimSpaceEmptyIff(s: string)
    ensures TrimSpace(s) == [] <==> AllSpace(s)
  {
    var r := TrimSpace(s);
    var i, j := TrimSpaceSlice(s);
    if r == [] {
      assert i == j;
      forall k | 0 <= k < |s| ensures IsSpace(s[k]) {
        if k < i { assert s[k] == s[..i][k]; } else { assert s[k] == s[j..][k - j]; }
      }
    } else {
      assert s[i] == r[0];
    }
  }

  /** Trimming is idempotent. */
  lemma TrimSpaceIdempotent(s: string)
    ensures TrimSpace(TrimSpace(s)) == TrimSpace(s)
  {
    var r := TrimSpace(s);
    if r != [] {
      assert TrimLeft(r) == r;
      assert TrimRight(r) == r;
    }
  }

  /** Length of the longest prefix of `s` holding no white space. */
  function WordLength(s: string): (n: nat)
    ensures n <= |s| && NoSpace(s[..n])
    ensures n == |s| || IsSpace(s[n])
  {
    if s == [] || IsSpace(s[0]) then 0
    else
      var n := WordLength(s[1..]);
      assert s[..n + 1] == [s[0]] + s[1..][..n];
      1 + n
  }

  /** Go's `strings.Fields`: the maximal runs of non-space runes, in order. */
  function Fields(s: string): (ws: seq<string>)
    ensures forall i :: 0 <= i < |ws| ==> ws[i] != [] && NoSpace(ws[i])
    decreases |s|
  {
    var t := TrimLeft(s);
    if t == [] then []
    else
      var n := WordLength(t);
      [t[..n]] + Fields(t[n..])
  }

  /** Go's `strings.Join`: the items with `sep` between neighbours. */
  function Join(items: seq<string>, sep: string): (r: string)
    ensures items == [] ==> r == ""
    ensures items != [] ==> |items[0]| <= |r| && r[..|items[0]|] == items[0]
    ensures |items| >= 2 ==> |items[0] + sep| <= |r| && r[..|items[0] + sep|] == items[0] + sep
  {
    if |items| == 0 then ""
    else if |items| == 1 then items[0]
    else items[0] + sep + Join(items[1..], sep)
  }

  /** Joining appends one separator and one item at a time. */
  lemma {:induction false} JoinSnoc(items: seq<string>, x: string, sep: string)
    ensures Join(items + [x], sep) == if items == [] then x else Join(items, sep) + sep + x
  {
    if |items| <= 1 {
    } else {
      assert (items + [x])[1..] == items[1..] + [x];
      JoinSnoc(items[1..], x, sep);
    }
  }

  /** The length of a join: every item plus one separator per neighbour pair. */
  lemma {:induction false} JoinLength(items: seq<string>, sep: string)
    ensures |items| > 0 ==> |Join(items, sep)| == TotalLength(items) + (|items| - 1) * |sep|
    ensures |items| == 0 ==> Join(items, sep) == ""
  {
    if |items| > 1 {
      JoinLength(items[1..], sep);
    }
  }

  function TotalLength(items: seq<string>): nat {
    if items == [] then 0 else |items[0]| + TotalLength(items[1..])
  }

  /** `s` with every white-space rune removed. */
  function RemoveSpaces(s: string): (r: string)
    ensures |r| <= |s|
  {
    if s == [] then []
    else (if IsSpace(s[0]) then [] else [s[0]]) + RemoveSpaces(s[1..])
  }

  lemma {:induction false} RemoveSpacesAppend(a: string, b: string)
    ensures RemoveSpaces(a + b) == RemoveSpaces(a) + RemoveSpaces(b)
  {
    if a == [] {
      assert a + b == b;
    } else {
      assert (a + b)[1..] == a[1..] + b;
      RemoveSpacesAppend(a[1..], b);
    }
  }

  lemma {:induction false} RemoveSpacesAll(s: string)
    ensures AllSpace(s) ==> RemoveSpaces(s) == []
    ensures NoSpace(s) ==> RemoveSpaces(s) == s
  {
    if s != [] {
      RemoveSpacesAll(s[1..]);
    }
  }

  /** Removing white space shortens every string that holds some. */
  lemma {:induction false} RemoveSpacesShorter(s: string, k: int)
    requires 0 <= k < |s| && IsSpace(s[k])
    ensures |RemoveSpaces(s)| < |s|
  {
    if k > 0 {
      RemoveSpacesShorter(s[1..], k - 1);
    }
  }

  /** With an empty separator, joining is plain concatenation. */
  lemma JoinEmptyCons(w: string, rest: seq<string>)
    ensures Join([w] + rest, "") == w + Join(rest, "")
  {
    if rest != [] {
      assert ([w] + rest)[1..] == rest;
    }
  }

  /** Leading white space changes neither the fields nor the spaceless string. */
  lemma TrimLeftInvisible(s: string)
    ensures RemoveSpaces(s) == RemoveSpaces(TrimLeft(s))
  {
    var t := TrimLeft(s);
    TrimLeftSuffix(s);
    var p := s[..|s| - |t|];
    assert s == p + t;
    RemoveSpacesAppend(p, t);
    RemoveSpacesAll(p);
  }

  /** Concatenating the fields of `s` yields `s` with its white space removed. */
  lemma {:induction false} FieldsConcat(s: string)
    ensures Join(Fields(s), "") == RemoveSpaces(s)
    decreases |s|
  {
    TrimLeftInvisible(s);
    var t := TrimLeft(s);
    if t != [] {
      var n := WordLength(t);
      var w, u := t[..n], t[n..];
      assert Fields(s) == [w] + Fields(u);
      assert t == w + u;
      RemoveSpacesAppend(w, u);
      RemoveSpacesAll(w);
      FieldsConcat(u);
      JoinEmptyCons(w, Fields(u));
    }
  }

  /** Go's `strings.HasPrefix`. */
  predicate HasPrefix(s: string, prefix: string) {
    |prefix| <= |s| && s[..|prefix|] == prefix
  }

  // ---------------------------------------------------------------------------
  // Decimal numbers
  // ---------------------------------------------------------------------------

  const MaxInt64: int := 0x7fff_ffff_ffff_ffff
  const MinInt64: int := -0x8000_0000_0000_0000

  predicate IsDigit(c: char) {
    '0' <= c <= '9'
  }

  predicate AllDigits(s: string) {
    forall i :: 0 <= i < |s| ==> IsDigit(s[i])
  }

  function DigitValue(c: char): (d: nat)
    requires IsDigit(c)
    ensures d < 10
  {
    (c as int) - ('0' as int)
  }

  function DigitChar(d: nat): (c: char)
    requires d < 10
    ensures IsDigit(c) && DigitValue(c) == d
  {
    (('0' as int) + d) as char
  }

  /** The value of a string of ASCII decimal digits, most significant first. */
  function DecimalValue(s: string): nat
    requires AllDigits(s)
  {
    if s == [] then 0 else DecimalValue(s[..|s| - 1]) * 10 + DigitValue(s[|s| - 1])
  }

  /** Canonical decimal rendering: digits only, no leading zero except for "0". */
  predicate Canonical(s: string) {
    |s| >= 1 && AllDigits(s) && (s[0] != '0' || |s| == 1)
  }

  /** The decimal rendering of a natural number, as `strconv.Itoa` writes it. */
  function NatToString(n: nat): (s: string)
    ensures Canonical(s)
    ensures (n < 10) == (|s| == 1)
  {
    if n < 10 then [DigitChar(n)]
    else
      var p := NatToString(n / 10);
      p + [DigitChar(n % 10)]
  }

  /** Go's `strconv.Itoa`: a minus sign for negative numbers. */
  function IntToString(i: int): (s: string)
    ensures i < 0 ==> s == "-" + NatToString(-i)
    ensures i >= 0 ==> Canonical(s)
  {
    if i < 0 then "-" + NatToString(-i) else NatToString(i)
  }

  /** Reading back a rendering gives the number. */
  lemma {:induction false} NatToStringValue(n: nat)
    ensures DecimalValue(NatToString(n)) == n
  {
    if n >= 10 {
      NatToStringValue(n / 10);
      var s := NatToString(n);
      assert s[..|s| - 1] == NatToString(n / 10);
    }
  }

  lemma DivModByTen(q: nat, d: nat)
    requires d < 10
    ensures (q * 10 + d) / 10 == q && (q * 10 + d) % 10 == d
  {
  }

  function Pow10(n: nat): (p: nat)
    ensures p >= 1
    ensures n >= 1 ==> p >= 10
  {
    if n == 0 then 1 else 10 * Pow10(n - 1)
  }

  lemma Pow10Nineteen()
    ensures Pow10(19) == 10_000_000_000_000_000_000 > MaxInt64
  {
    assert Pow10(4) == 10_000;
    assert Pow10(8) == 100_000_000;
    assert Pow10(12) == 1_000_000_000_000;
    assert Pow10(16) == 10_000_000_000_000_000;
  }

  lemma {:induction false} Pow10Monotone(a: nat, b: nat)
    requires a <= b
    ensures Pow10(a) <= Pow10(b)
  {
    if a < b {
      Pow10Monotone(a, b - 1);
    }
  }

  /** A canonical string that does not start with '0' is worth at least
      ten to the number of its digits minus one. */
  lemma {:induction false} CanonicalLowerBound(s: string)
    requires Canonical(s) && s[0] != '0'
    ensures DecimalValue(s) >= Pow10(|s| - 1)
  {
    if |s| >= 2 {
      var p := s[..|s| - 1];
      assert p[0] == s[0];
      CanonicalLowerBound(p);
    }
  }

  /** Rendering the value of a canonical string gives the string back. */
  lemma {:induction false} DecimalRoundTrip(s: string)
    requires Canonical(s)
    ensures NatToString(DecimalValue(s)) == s
  {
    if |s| >= 2 {
      var p := s[..|s| - 1];
      assert p[0] == s[0];
      CanonicalLowerBound(s);
      DivModByTen(DecimalValue(p), DigitValue(s[|s| - 1]));
      DecimalRoundTrip(p);
      assert s == p + [s[|s| - 1]];
    }
  }

  /** Equal canonical renderings have equal values and vice versa. */
  lemma CanonicalInjective(s: string, t: string)
    requires Canonical(s) && Canonical(t)
    ensures DecimalValue(s) == DecimalValue(t) <==> s == t
  {
    DecimalRoundTrip(s);
    DecimalRoundTrip(t);
  }

  /** Go's `strconv.Atoi` on a 64-bit platform: an optional sign, then one or
      more ASCII digits (leading zeros allowed) whose value fits in int64.
      Anything else is a syntax or range error, modelled as None. */
  function Atoi(s: string): (r: Option<int>)
    ensures r.Some? ==> MinInt64 <= r.value <= MaxInt64
    ensures r.Some? ==> s != [] && (s[0] == '-' || s[0] == '+' || IsDigit(s[0]))
    ensures r.Some? ==> Unsigned(s) != [] && AllDigits(Unsigned(s))
    ensures r.Some? ==> (r.value < 0 ==> s[0] == '-') &&
                        (if r.value < 0 then -r.value else r.value) == DecimalValue(Unsigned(s))
  {
    if s == [] then None
    else
      var body := if s[0] == '-' || s[0] == '+' then s[1..] else s;
      if body == [] || !AllDigits(body) then None
      else
        var v: int := if s[0] == '-' then -(DecimalValue(body) as int) else DecimalValue(body);
        if MinInt64 <= v <= MaxInt64 then Some(v) else None
  }

  /** The text after an optional leading sign. */
  function Unsigned(s: string): string {
    if s != [] && (s[0] == '-' || s[0] == '+') then s[1..] else s
  }

  /** Every digit string is read in all three spellings: bare or with '+'
      it gives its value when that fits in int64, with '-' the negated
      value down to the int64 minimum; out of range, it is an error. With
      the contract of `Atoi` (only such strings are read) this pins it. */
  lemma AtoiDigits(t: string)
    requires t != [] && AllDigits(t)
    ensures DecimalValue(t) <= MaxInt64 ==>
              Atoi(t) == Some(DecimalValue(t)) && Atoi("+" + t) == Some(DecimalValue(t))
    ensures DecimalValue(t) > MaxInt64 ==> Atoi(t) == None && Atoi("+" + t) == None
    ensures DecimalValue(t) <= MaxInt64 + 1 ==> Atoi("-" + t) == Some(-(DecimalValue(t) as int))
    ensures DecimalValue(t) > MaxInt64 + 1 ==> Atoi("-" + t) == None
  {
    assert ("+" + t)[1..] == t && ("-" + t)[1..] == t;
    assert t[0] != '-' && t[0] != '+' by {
      assert IsDigit(t[0]);
    }
  }

  /** `Atoi` reads back what `Itoa` writes, for every int64. */
  lemma AtoiItoa(i: int)
    requires MinInt64 <= i <= MaxInt64
    ensures Atoi(IntToString(i)) == Some(i)
  {
    var s := IntToString(i);
    if i < 0 {
      NatToStringValue(-i);
      assert s[1..] == NatToString(-i);
    } else {
      NatToStringValue(i);
    }
  }
}
