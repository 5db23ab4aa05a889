/** Request-body values as the handlers see them after JSON parsing, and the
    two library behaviours the controllers lean on: the string trimming of the
    validator's `trim()` sanitizer, and the store's rule that an `undefined`
    field in an update leaves the column untouched. */
module Body {
  import opened Wrappers

  /** One field of a JSON body: missing (`undefined`), explicitly `null`, or a value. */
  datatype Field<+T> = Absent | Null | Given(value: T)

  /** A date-valued body field. `Blank` is the empty string, the only falsy
      string; `Iso` is a string the ISO-8601 check accepts, with the instant it
      denotes; `Unparseable` is any other non-empty string, taken to be one the
      store refuses as a date. Date strings are classified by the ISO check
      alone: which of them `new Date` would actually parse is not modelled.
      Instants are opaque integers. */
  datatype DateInput = Blank | Iso(instant: int) | Unparseable

  // ---------------------------------------------------------------------------
  // JavaScript truthiness of present values

  predicate TruthyString(f: Field<string>) {
    f.Given? && f.value != ""
  }

  /** NaN is not a JSON value, so zero is the only falsy number. */
  predicate TruthyNumber(f: Field<real>) {
    f.Given? && f.value != 0.0
  }

  predicate TruthyDate(f: Field<DateInput>) {
    f.Given? && !f.value.Blank?
  }

  // ---------------------------------------------------------------------------
  // Whitespace trimming

  /** The characters JavaScript's `\s` class matches, which the trim sanitizer strips. */
  predicate IsSpace(c: char) {
    || c == ' ' || c == '\t' || c == '\n' || c == '\r' || c == '\U{000B}' || c == '\U{000C}'
    || c == '\U{00A0}' || c == '\U{1680}' || ('\U{2000}' <= c <= '\U{200A}')
    || c == '\U{2028}' || c == '\U{2029}' || c == '\U{202F}' || c == '\U{205F}'
    || c == '\U{3000}' || c == '\U{FEFF}'
  }

  predicate AllSpace(s: string) {
    forall i :: 0 <= i < |s| ==> IsSpace(s[i])
  }

  /** Drops the leading whitespace: the result is a suffix of `s`, what was
      dropped is all whitespace, and the result does not start with any. */
  function TrimStart(s: string): (r: string)
    ensures |r| <= |s| && r == s[|s| - |r|..]
    ensures AllSpace(s[..|s| - |r|])
    ensures r == [] || !IsSpace(r[0])
  {
    if |s| > 0 && IsSpace(s[0]) then
      var r := TrimStart(s[1..]);
      assert s[1..][|s| - 1 - |r|..] == s[|s| - |r|..];
      assert forall k :: 1 <= k < |s| - |r| ==> s[k] == s[1..][..|s| - 1 - |r|][k - 1];
      r
    else
      assert s[|s| - |s|..] == s;
      s
  }

  /** Drops the trailing whitespace: the result is a prefix of `s`, what was
      dropped is all whitespace, and the result does not end with any. */
  function TrimEnd(s: string): (r: string)
    ensures |r| <= |s| && r == s[..|r|]
    ensures AllSpace(s[|r|..])
    ensures r == [] || !IsSpace(r[|r| - 1])
  {
    if |s| > 0 && IsSpace(s[|s| - 1]) then
      var s' := s[..|s| - 1];
      var r := TrimEnd(s');
      assert s'[..|r|] == s[..|r|];
      assert forall k :: |r| <= k < |s'| ==> s[k] == s'[|r|..][k - |r|];
      r
    else
      assert s[..|s|] == s;
      s
  }

  /** The trim sanitizer: strips leading and trailing whitespace. The result
      is a slice of `s` with only whitespace dropped on either side. */
  function Trim(s: string): (r: string)
    ensures |r| <= |s|
    ensures exists i :: 0 <= i && i + |r| <= |s| && r == s[i..i + |r|] && AllSpace(s[..i]) && AllSpace(s[i + |r|..])
    ensures r == [] || (!IsSpace(r[0]) && !IsSpace(r[|r| - 1]))
  {
    var t := TrimStart(s);
    var r := TrimEnd(t);
    var i := |s| - |t|;
    assert r == s[i..i + |r|];
    assert s[i + |r|..] == t[|r|..];
    r
  }

  /** A string is empty after trimming exactly when it is all whitespace. */
  lemma TrimEmptyIffAllSpace(s: string)
    ensures Trim(s) == [] <==> AllSpace(s)
  {
    var t := TrimStart(s);
    var r := TrimEnd(t);
    if r == [] {
      assert t[|r|..] == t;
      assert s[..|s| - |t|] == s;
    } else {
      var i := |s| - |t|;
      assert r[0] == t[0] == s[i];
    }
  }

  /** Trimming twice is trimming once. */
  lemma TrimIdempotent(s: string)
    ensures Trim(Trim(s)) == Trim(s)
  {
    var r := Trim(s);
    assert TrimStart(r) == r;
    assert TrimEnd(r) == r;
  }

  // ---------------------------------------------------------------------------
  // Integer columns

  /** An integer column accepts a JSON number only when it is integral. */
  predicate IsIntegral(v: real) {
    v == v.Floor as real
  }

  // ---------------------------------------------------------------------------
  // The store's partial-update rule, for fields the store accepts

  /** A present value overwrites the column; an absent field leaves it. */
  function Overwrite<T>(current: T, f: Field<T>): T {
    if f.Given? then f.value else current
  }

  /** For an integer column: the present value, which the store accepts only when integral. */
  function OverwriteInt(current: int, f: Field<real>): int {
    if f.Given? then f.value.Floor else current
  }

  /** For a date column: `new Date(x)` of a present field, `null` being the epoch. */
  function OverwriteDate(current: int, f: Field<DateInput>): int {
    match f
    case Given(Iso(t)) => t
    case Null => 0
    case _ => current
  }

  /** For a nullable column: absent leaves it, `null` clears it. */
  function OverwriteNullable<T>(current: Option<T>, f: Field<T>): Option<T> {
    match f
    case Absent => current
    case Null => None
    case Given(v) => Some(v)
  }

  function OverwriteNullableInt(current: Option<int>, f: Field<real>): Option<int> {
    match f
    case Absent => current
    case Null => None
    case Given(v) => Some(v.Floor)
  }
}
