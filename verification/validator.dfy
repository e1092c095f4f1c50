/** The form validator of pkg/validator: an accumulator of field errors
    (first message per field wins) and non-field errors, the string
    predicates forms are checked with, and the strict decimal ID parser. */
module Validator {
  import opened Wrappers
  import opened Strings

  /** Errors collected while checking a form. Go's nil map and an empty map
      behave the same for every operation here, so both are `map[]`. */
  datatype Validator = Validator(nonFieldErrors: seq<string>, fieldErrors: map<string, string>)

  /** The zero value a fresh form starts with. */
  function Empty(): Validator {
    Validator([], map[])
  }

  /** `Valid`: the form passed every check so far. */
  function Valid(v: Validator): (ok: bool)
    ensures ok <==> v == Empty()
  {
    |v.fieldErrors| == 0 && |v.nonFieldErrors| == 0
  }

  /** `AddNonFieldError` appends a message. */
  function AddNonFieldError(v: Validator, message: string): (r: Validator)
    ensures |r.nonFieldErrors| == |v.nonFieldErrors| + 1
    ensures r.nonFieldErrors[..|v.nonFieldErrors|] == v.nonFieldErrors
    ensures r.nonFieldErrors[|v.nonFieldErrors|] == message
    ensures r.fieldErrors == v.fieldErrors
    ensures !Valid(r)
  {
    v.(nonFieldErrors := v.nonFieldErrors + [message])
  }

  /** `AddFieldError` records `message` for `key` unless the key already has one. */
  function AddFieldError(v: Validator, key: string, message: string): (r: Validator)
    ensures key in r.fieldErrors
    ensures key in v.fieldErrors ==> r == v
    ensures key !in v.fieldErrors ==> r.fieldErrors[key] == message
    ensures r.fieldErrors.Keys == v.fieldErrors.Keys + {key}
    ensures forall k :: k in v.fieldErrors ==> r.fieldErrors[k] == v.fieldErrors[k]
    ensures r.nonFieldErrors == v.nonFieldErrors
    ensures !Valid(r)
  {
    if key in v.fieldErrors then v
    else v.(fieldErrors := v.fieldErrors[key := message])
  }

  /** `CheckField` records an error exactly when the check failed. */
  function CheckField(v: Validator, ok: bool, key: string, message: string): (r: Validator)
    ensures ok ==> r == v
    ensures !ok ==> r == AddFieldError(v, key, message)
    ensures !ok ==> key in r.fieldErrors && !Valid(r)
  {
    if ok then v else AddFieldError(v, key, message)
  }

  /** Once a field has a message, later messages for it change nothing. */
  lemma FirstFieldErrorWins(v: Validator, key: string, first: string, later: string)
    ensures AddFieldError(AddFieldError(v, key, first), key, later) == AddFieldError(v, key, first)
    ensures AddFieldError(AddFieldError(v, key, first), key, later).fieldErrors[key] ==
            if key in v.fieldErrors then v.fieldErrors[key] else first
  {
  }

  /** Errors for different fields do not interfere: the order they are added in does not matter. */
  lemma FieldErrorsCommute(v: Validator, k1: string, m1: string, k2: string, m2: string)
    requires k1 != k2
    ensures AddFieldError(AddFieldError(v, k1, m1), k2, m2) == AddFieldError(AddFieldError(v, k2, m2), k1, m1)
  {
    var f := v.fieldErrors;
    if k1 !in f && k2 !in f {
      assert f[k1 := m1][k2 := m2] == f[k2 := m2][k1 := m1];
    }
  }

  // ---------------------------------------------------------------------------
  // String checks
  // ---------------------------------------------------------------------------

  /** `NotBlank`: something other than white space remains after trimming. */
  function NotBlank(value: string): (ok: bool)
    ensures ok <==> exists i :: 0 <= i < |value| && !IsSpace(value[i])
  {
    TrimSpaceEmptyIff(value);
    TrimSpace(value) != ""
  }

  /** Removing white space leaves a string unchanged exactly when it has none. */
  lemma RemoveSpacesIdentity(s: string)
    ensures RemoveSpaces(s) == s <==> NoSpace(s)
  {
    RemoveSpacesAll(s);
    if !NoSpace(s) {
      var k :| 0 <= k < |s| && IsSpace(s[k]);
      RemoveSpacesShorter(s, k);
    }
  }

  /** `NotHaveAnySpaces`: joining the fields back together changes nothing. */
  function NotHaveAnySpaces(value: string): (ok: bool)
    ensures ok <==> NoSpace(value)
  {
    FieldsConcat(value);
    RemoveSpacesIdentity(value);
    Join(Fields(value), "") == value
  }

  /** `MaxChars`: at most `n` runes. Go's `len` would count bytes; the
      rune count lets through any string of at most `n` bytes and some of
      up to `4 * n` bytes. */
  function MaxChars(value: string, n: int): (ok: bool)
    ensures ok <==> |value| <= n
    ensures Utf8Length(value) <= n ==> ok
    ensures ok ==> Utf8Length(value) <= 4 * n
  {
    |value| <= n
  }

  /** `MinChars`: at least `n` runes. Every string of `4 * n` bytes or more
      passes, and none of fewer than `n` bytes. */
  function MinChars(value: string, n: int): (ok: bool)
    ensures ok <==> |value| >= n
    ensures Utf8Length(value) >= 4 * n ==> ok
    ensures ok ==> Utf8Length(value) >= n
  {
    |value| >= n
  }

  /** Both bounds hold together exactly at the rune count, and the two
      checks split every count: at most `n` runes or at least `n + 1`. */
  lemma MaxMinCharsExact(value: string, n: int)
    ensures MaxChars(value, n) && MinChars(value, n) <==> |value| == n
    ensures MaxChars(value, n) <==> !MinChars(value, n + 1)
  {
  }

  /** The number of bytes of a rune in UTF-8. */
  function Utf8Width(c: char): (w: nat)
    ensures 1 <= w <= 4
    ensures w == 1 <==> (c as int) < 0x80
  {
    var n := c as int;
    if n < 0x80 then 1 else if n < 0x800 then 2 else if n < 0x10000 then 3 else 4
  }

  /** The number of bytes of a string in UTF-8, what Go's `len` counts. */
  function Utf8Length(s: string): (b: nat)
    ensures |s| <= b <= 4 * |s|
  {
    if s == [] then 0 else Utf8Width(s[0]) + Utf8Length(s[1..])
  }

  /** On ASCII text bytes and runes agree, so there `MaxChars` and
      `MinChars` are the byte bounds. */
  lemma {:induction false} AsciiCharsAreBytes(value: string, n: int)
    requires forall i :: 0 <= i < |value| ==> (value[i] as int) < 0x80
    ensures Utf8Length(value) == |value|
    ensures MaxChars(value, n) <==> Utf8Length(value) <= n
    ensures MinChars(value, n) <==> Utf8Length(value) >= n
  {
    if value != [] {
      AsciiCharsAreBytes(value[1..], n);
    }
  }

  /** Counting runes rather than bytes: for every limit `n`, a Cyrillic
      text of `n` runes and `2 * n` bytes passes `MaxChars(n)`, so a byte
      count would have refused it once `n > 0`. */
  lemma MaxCharsCountsRunes(n: nat)
    ensures var title := seq(n, i => 'Ж');
            MaxChars(title, n) && Utf8Length(title) == 2 * n
  {
    var title := seq(n, i => 'Ж');
    TwoByteLength(title);
  }

  lemma {:induction false} TwoByteLength(s: string)
    requires forall i :: 0 <= i < |s| ==> s[i] == 'Ж'
    ensures Utf8Length(s) == 2 * |s|
  {
    if s != [] {
      TwoByteLength(s[1..]);
    }
  }

  /** `PermittedValue`: the value is one of the permitted ones. */
  method PermittedValue<T(==)>(value: T, permitted: seq<T>) returns (ok: bool)
    ensures ok <==> value in permitted
  {
    var i := 0;
    while i < |permitted|
      invariant 0 <= i <= |permitted|
      invariant value !in permitted[..i]
    {
      if value == permitted[i] {
        return true;
      }
      i := i + 1;
    }
    assert permitted[..i] == permitted;
    return false;
  }

  // ---------------------------------------------------------------------------
  // ValidateID
  // ---------------------------------------------------------------------------

  /** The reasons `ValidateID` rejects an ID, in the order it checks them. */
  datatype IdError = EmptyId | SignedId | LeadingZeros | NotOnlyDigits | NotPositive

  /** Go's `(int, error)` pair: on an error the number is 0. */
  datatype IdParse = IdParse(id: int, err: Option<IdError>)

  /** `ValidateID`: a positive int64 written in canonical decimal — no sign,
      no leading zero, ASCII digits only. On success the rendering of the
      number is the input itself. Go compares `len(id) > 1` in bytes; since
      the first rune is then the one-byte '0', that equals `|id| > 1` in runes. */
  function ValidateID(id: string): (r: IdParse)
    ensures r.err.Some? ==> r.id == 0
    ensures r.err.None? <==> Canonical(id) && id != "0" && DecimalValue(id) <= MaxInt64
    ensures r.err.None? ==> 1 <= r.id <= MaxInt64 && IntToString(r.id) == id
    ensures id == "" <==> r.err == Some(EmptyId)
  {
    if id == "" then IdParse(0, Some(EmptyId))
    else if id[0] == '+' || id[0] == '-' then IdParse(0, Some(SignedId))
    else if |id| > 1 && id[0] == '0' then IdParse(0, Some(LeadingZeros))
    else if !AllDigits(id) then IdParse(0, Some(NotOnlyDigits))
    else
      CanonicalPositive(id);
      DecimalRoundTrip(id);
      match Atoi(id)
      case None => IdParse(0, Some(NotPositive))
      case Some(n) => if n < 1 then IdParse(0, Some(NotPositive)) else IdParse(n, None)
  }

  /** A canonical rendering other than "0" has a positive value. */
  lemma CanonicalPositive(s: string)
    requires Canonical(s)
    ensures DecimalValue(s) >= 1 <==> s != "0"
  {
    DecimalRoundTrip(s);
  }

  /** Every positive int64, rendered in decimal, is accepted as itself. */
  lemma ValidateIDAcceptsRendering(n: int)
    requires 1 <= n <= MaxInt64
    ensures ValidateID(IntToString(n)) == IdParse(n, None)
  {
    var s := IntToString(n);
    NatToStringValue(n);
    assert s != "0";
  }

  /** The cases of the handler tests that feed `ValidateID`. */
  lemma ValidateIDExamples()
    ensures ValidateID("1") == IdParse(1, None)
    ensures ValidateID("0").err == Some(NotPositive)
    ensures ValidateID("-1").err == Some(SignedId)
    ensures ValidateID("+1").err == Some(SignedId)
    ensures ValidateID("01").err == Some(LeadingZeros)
    ensures ValidateID("1.23").err == Some(NotOnlyDigits)
    ensures ValidateID("foo").err == Some(NotOnlyDigits)
    ensures ValidateID("10000000000000000000").err == Some(NotPositive)
  {
    assert "1"[..0] == [];
    assert !IsDigit("1.23"[1]);
    assert !IsDigit("foo"[0]);
    ValidateIDRejectsLong("10000000000000000000");
  }

  /** Twenty digits or more overflow int64, so `strconv.Atoi` fails. */
  lemma ValidateIDRejectsLong(s: string)
    requires Canonical(s) && s[0] != '0' && |s| >= 20
    ensures ValidateID(s).err == Some(NotPositive)
  {
    CanonicalLowerBound(s);
    Pow10Nineteen();
    Pow10Monotone(19, |s| - 1);
  }
}
