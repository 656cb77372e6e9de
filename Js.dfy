/** The JavaScript and express-validator semantics the controllers and models
    rely on: request-body values, truthiness, `String.prototype.trim`,
    `String.prototype.includes`, and the boolean check of `isBoolean()`. */
module Js {
  import opened Base

  /** A scalar value of a JSON request body. `None` (in `Option<JsonValue>`)
      stands for a field that is absent, i.e. `undefined`. */
  datatype JsonValue = JNull | JBool(b: bool) | JNum(n: int) | JStr(s: string)

  /** JavaScript truthiness (`v ? 1 : 0`): `undefined`, `null`, `false`, `0`
      and `""` are falsy; everything else is truthy. */
  function Truthy(v: Option<JsonValue>): (t: bool)
    ensures v == None || v == Some(JNull) ==> !t
    ensures forall b :: v == Some(JBool(b)) ==> t == b
  {
    match v
    case None => false
    case Some(JNull) => false
    case Some(JBool(b)) => b
    case Some(JNum(n)) => n != 0
    case Some(JStr(s)) => s != ""
  }

  /** `a || b` for an optional string: `b` when `a` is absent or empty. */
  function OrElse(a: Option<string>, b: string): (r: string)
    ensures a.Some? && a.value != "" ==> r == a.value
    ensures a == None || a == Some("") ==> r == b
  {
    if a.Some? && a.value != "" then a.value else b
  }

  /** `a || null` for an optional string. */
  function OrNull(a: Option<string>): (r: Option<string>)
    ensures r.Some? <==> a.Some? && a.value != ""
    ensures r.Some? ==> r == a
  {
    if a.Some? && a.value != "" then a else None
  }

  /** express-validator's `isBoolean()`: the value is turned into a string
      (`undefined` and `null` become "") and must be one of
      "true", "false", "1", "0". */
  predicate IsBooleanLike(v: Option<JsonValue>) {
    match v
    case None => false
    case Some(JNull) => false
    case Some(JBool(_)) => true
    case Some(JNum(n)) => n == 0 || n == 1
    case Some(JStr(s)) => s == "true" || s == "false" || s == "1" || s == "0"
  }

  /** The string "false" passes `isBoolean()` and is truthy, so code that
      validates with `isBoolean()` and then tests `v ? 1 : 0` stores it as true;
      so is "0". */
  lemma StringFalseIsTruthy()
    ensures IsBooleanLike(Some(JStr("false"))) && Truthy(Some(JStr("false")))
    ensures IsBooleanLike(Some(JStr("0"))) && Truthy(Some(JStr("0")))
  {
  }

  /** A JSON boolean means what it says under both checks. */
  lemma JsonBooleanIsFaithful(b: bool)
    ensures IsBooleanLike(Some(JBool(b))) && Truthy(Some(JBool(b))) == b
  {
  }

  /** The characters JavaScript's `\s` matches, which `trim` removes. */
  predicate IsSpace(c: char) {
    var n := c as int;
    n == 0x09 || n == 0x0A || n == 0x0B || n == 0x0C || n == 0x0D || n == 0x20
    || n == 0xA0 || n == 0x1680 || (0x2000 <= n <= 0x200A) || n == 0x2028
    || n == 0x2029 || n == 0x202F || n == 0x205F || n == 0x3000 || n == 0xFEFF
  }

  /** `s` with its leading whitespace removed. */
  function TrimStart(s: string): (r: string)
    ensures |r| <= |s| && r == s[|s| - |r|..]
    ensures r != [] ==> !IsSpace(r[0])
    ensures forall i :: 0 <= i < |s| - |r| ==> IsSpace(s[i])
  {
    if s != [] && IsSpace(s[0]) then TrimStart(s[1..]) else s
  }

  /** `s` with its trailing whitespace removed. */
  function TrimEnd(s: string): (r: string)
    ensures |r| <= |s| && r == s[..|r|]
    ensures r != [] ==> !IsSpace(r[|r| - 1])
    ensures forall i :: |r| <= i < |s| ==> IsSpace(s[i])
  {
    if s != [] && IsSpace(s[|s| - 1]) then TrimEnd(s[..|s| - 1]) else s
  }

  /** `s.trim()`: a slice of `s` that neither starts nor ends with whitespace,
      with only whitespace cut off around it. */
  function Trim(s: string): (r: string)
    ensures exists a :: OccursAt(s, r, a)
    ensures r != [] ==> !IsSpace(r[0]) && !IsSpace(r[|r| - 1])
    ensures r == [] <==> forall i :: 0 <= i < |s| ==> IsSpace(s[i])
  {
    var t := TrimStart(s);
    var r := TrimEnd(t);
    assert r == s[|s| - |t|..][..|r|];
    assert OccursAt(s, r, |s| - |t|);
    assert r == [] ==> t == [];
    r
  }

  /** `isLength({ min: 1 })` after `trim()`: the value holds a non-space character. */
  lemma TrimmedNonEmptyIffVisible(s: string)
    ensures |Trim(s)| >= 1 <==> exists i :: 0 <= i < |s| && !IsSpace(s[i])
  {
  }

  /** Trimming is idempotent: a sanitized value is unchanged by a second `trim()`. */
  lemma {:induction false} TrimIdempotent(s: string)
    ensures Trim(Trim(s)) == Trim(s)
  {
    var r := Trim(s);
    if r != [] {
      assert TrimStart(r) == r;
      assert TrimEnd(r) == r;
    }
  }

  /** `k` occurs in `s` at position `i`. */
  predicate OccursAt(s: string, k: string, i: int) {
    0 <= i <= |s| - |k| && s[i..i + |k|] == k
  }

  /** `s.includes(k)`. */
  predicate Includes(s: string, k: string) {
    exists i :: 0 <= i <= |s| - |k| && OccursAt(s, k, i)
  }

  /** A message built around a keyword includes that keyword. */
  lemma IncludesMiddle(a: string, k: string, b: string)
    ensures Includes(a + k + b, k)
  {
    var s := a + k + b;
    assert s[|a|..|a| + |k|] == k;
    assert OccursAt(s, k, |a|);
  }

  /** A keyword holding a character the message lacks is not included in it. */
  lemma MissingCharNotIncluded(s: string, k: string, c: char)
    requires c in k && c !in s
    ensures !Includes(s, k)
  {
    var j :| 0 <= j < |k| && k[j] == c;
    forall i | 0 <= i <= |s| - |k| ensures !OccursAt(s, k, i) {
      assert s[i..i + |k|][j] == s[i + j];
    }
  }
}
