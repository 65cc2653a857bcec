/**
 * Field validation: an accumulator of per-field messages and the stateless
 * predicates callers feed into it.
 */
module Validation {

  // ---------------------------------------------------------------------
  // The error accumulator
  // ---------------------------------------------------------------------

  /** `errs` after recording `message` under `key`, unless `key` already holds a message. */
  function WithError(errs: map<string, string>, key: string, message: string): (r: map<string, string>)
    ensures r.Keys == errs.Keys + {key}
    ensures r[key] == if key in errs then errs[key] else message
    ensures forall k :: k in errs ==> r[k] == errs[k]
  {
    if key in errs then errs else errs[key := message]
  }

  /** A second message for a key changes nothing: the first write wins. */
  lemma FirstWriteWins(errs: map<string, string>, key: string, first: string, second: string)
    ensures WithError(WithError(errs, key, first), key, second) == WithError(errs, key, first)
    ensures WithError(WithError(errs, key, first), key, second)[key] ==
            if key in errs then errs[key] else first
  {
  }

  /** Collects at most one message per field key. */
  class Validator {
    var errors: map<string, string>

    constructor New()
      ensures errors == map[]
      ensures Valid()
    {
      errors := map[];
    }

    /** No field has a message. */
    function Valid(): (ok: bool)
      reads this
      ensures ok <==> errors.Keys == {}
      ensures ok <==> forall k :: k !in errors
    {
      |errors| == 0
    }

    method AddError(key: string, message: string)
      modifies this
      ensures errors == WithError(old(errors), key, message)
      ensures key in errors && !Valid()
    {
      if key !in errors {
        errors := errors[key := message];
      }
    }

    /** Records `message` under `key` exactly when `ok` is false. */
    method Check(ok: bool, key: string, message: string)
      modifies this
      ensures errors == if ok then old(errors) else WithError(old(errors), key, message)
      ensures Valid() <==> old(Valid()) && ok
    {
      if !ok {
        AddError(key, message);
      }
    }
  }

  // ---------------------------------------------------------------------
  // Whitespace and byte length
  // ---------------------------------------------------------------------

  /**
   * The characters Go's `unicode.IsSpace` accepts: the ASCII spaces, NEL,
   * NO-BREAK SPACE and the other White_Space code points.
   */
  predicate IsSpace(c: char)
  {
    c == ' ' || c == '\t' || c == '\n' || c == '\r' || c == '\U{000B}' || c == '\U{000C}'
    || c == '\U{0085}' || c == '\U{00A0}' || c == '\U{1680}' || ('\U{2000}' <= c <= '\U{200A}')
    || c == '\U{2028}' || c == '\U{2029}' || c == '\U{202F}' || c == '\U{205F}' || c == '\U{3000}'
  }

  /** `s` without its leading white space. */
  function TrimLeft(s: string): (r: string)
    ensures |r| <= |s| && r == s[|s| - |r|..]
    ensures forall i :: 0 <= i < |s| - |r| ==> IsSpace(s[i])
    ensures r != [] ==> !IsSpace(r[0])
  {
    if s != [] && IsSpace(s[0]) then TrimLeft(s[1..]) else s
  }

  /** `s` without its trailing white space. */
  function TrimRight(s: string): (r: string)
    ensures |r| <= |s| && r == s[..|r|]
    ensures forall i :: |r| <= i < |s| ==> IsSpace(s[i])
    ensures r != [] ==> !IsSpace(r[|r| - 1])
  {
    if s != [] && IsSpace(s[|s| - 1]) then TrimRight(s[..|s| - 1]) else s
  }

  /** `r` is the stretch of `s` starting at `i`, with nothing but white space before and after it. */
  ghost predicate Trims(s: string, r: string, i: int)
  {
    && 0 <= i <= |s| - |r| && r == s[i..i + |r|]
    && (forall j :: 0 <= j < i ==> IsSpace(s[j]))
    && (forall j :: i + |r| <= j < |s| ==> IsSpace(s[j]))
  }

  /**
   * `strings.TrimSpace`: a stretch of `s` that neither starts nor ends with
   * white space, empty exactly when `s` is all white space.
   */
  function TrimSpace(s: string): (r: string)
    ensures |r| <= |s|
    ensures exists i :: Trims(s, r, i)
    ensures r != [] ==> !IsSpace(r[0]) && !IsSpace(r[|r| - 1])
    ensures r == [] <==> forall i :: 0 <= i < |s| ==> IsSpace(s[i])
  {
    TrimBothEnds(s);
    TrimRight(TrimLeft(s))
  }

  /** Trimming the left end and then the right end leaves the middle stretch of `s`. */
  lemma TrimBothEnds(s: string)
    ensures Trims(s, TrimRight(TrimLeft(s)), |s| - |TrimLeft(s)|)
    ensures TrimLeft(s) != [] ==> !IsSpace(s[|s| - |TrimLeft(s)|])
  {
    var l := TrimLeft(s);
    var r := TrimRight(l);
    assert l == s[|s| - |l|..];
    assert r == l[..|r|];
    TrimmedStretch(s, l, r);
    if l != [] {
      assert l[0] == s[|s| - |l|];
    }
  }

  /** A prefix `r` of the suffix `l` of `s`, with white space outside both, is a trimmed stretch of `s`. */
  lemma TrimmedStretch(s: string, l: string, r: string)
    requires |l| <= |s| && l == s[|s| - |l|..] && (forall j :: 0 <= j < |s| - |l| ==> IsSpace(s[j]))
    requires |r| <= |l| && r == l[..|r|] && (forall j :: |r| <= j < |l| ==> IsSpace(l[j]))
    ensures Trims(s, r, |s| - |l|)
  {
    var i := |s| - |l|;
    assert r == s[i..i + |r|];
    forall j | i + |r| <= j < |s|
      ensures IsSpace(s[j])
    {
      assert s[j] == l[j - i];
    }
  }

  /** The value is not empty once surrounding white space is trimmed: some character of it is not white space. */
  predicate NotBlank(value: string): (b: bool)
    ensures b <==> exists i :: 0 <= i < |value| && !IsSpace(value[i])
    ensures b ==> value != []
  {
    TrimSpace(value) != ""
  }

  /** Number of bytes of the UTF-8 encoding of `c`. */
  function Utf8Width(c: char): (n: nat)
    ensures 1 <= n <= 4
    ensures n == 1 <==> c < '\U{0080}'
  {
    if c < '\U{0080}' then 1
    else if c < '\U{0800}' then 2
    else if c <= '\U{FFFF}' then 3
    else 4
  }

  /** Go's `len` on a string: the number of bytes of its UTF-8 encoding. */
  function Utf8Len(s: string): (n: nat)
    ensures |s| <= n <= 4 * |s|
    ensures n == |s| <==> forall i :: 0 <= i < |s| ==> s[i] < '\U{0080}'
  {
    if s == [] then 0 else Utf8Width(s[0]) + Utf8Len(s[1..])
  }

  /**
   * At least `n` bytes long: certainly so with `n` characters, never with
   * fewer than `n / 4`, and for ASCII text exactly when there are `n` characters.
   */
  predicate MinLength(value: string, n: int): (b: bool)
    ensures |value| >= n ==> b
    ensures b ==> 4 * |value| >= n
    ensures (forall i :: 0 <= i < |value| ==> value[i] < '\U{0080}') ==> (b <==> |value| >= n)
  {
    Utf8Len(value) >= n
  }

  /**
   * At most `n` bytes long: never with more than `n` characters, certainly
   * with at most `n / 4`, and for ASCII text exactly when there are at most `n` characters.
   */
  predicate MaxLength(value: string, n: int): (b: bool)
    ensures b ==> |value| <= n
    ensures 4 * |value| <= n ==> b
    ensures (forall i :: 0 <= i < |value| ==> value[i] < '\U{0080}') ==> (b <==> |value| <= n)
  {
    Utf8Len(value) <= n
  }

  /** The two length bounds together pin the byte length. */
  lemma LengthBounds(value: string, n: int)
    ensures MinLength(value, n) && MaxLength(value, n) <==> Utf8Len(value) == n
  {
  }

  /** Inside the closed range: both ends are included, and an empty range admits nothing. */
  predicate Between(value: real, min: real, max: real): (b: bool)
    ensures b ==> min <= max
    ensures value == min || value == max ==> (b <==> min <= max)
  {
    value >= min && value <= max
  }

  /** Every value strictly inside the range passes and every value outside it fails. */
  lemma BetweenIsInclusive(v: real, min: real, max: real)
    ensures min < v < max ==> Between(v, min, max)
    ensures v < min || v > max ==> !Between(v, min, max)
  {
  }

  // ---------------------------------------------------------------------
  // Password strength
  // ---------------------------------------------------------------------

  datatype CharClass = Upper | Lower | Number | Special | Other

  /**
   * The first of upper-case, lower-case, number and punctuation-or-symbol
   * that `c` belongs to, in the order the password scan tests them (ASCII
   * classification; see README).
   */
  function Classify(c: char): CharClass
  {
    if 'A' <= c <= 'Z' then Upper
    else if 'a' <= c <= 'z' then Lower
    else if '0' <= c <= '9' then Number
    else if ('!' <= c <= '/') || (':' <= c <= '@') || ('[' <= c <= '`') || ('{' <= c <= '~') then Special
    else Other
  }

  /** Some character of `s` is classified as `k`. */
  ghost predicate HasClass(s: string, k: CharClass)
  {
    exists i :: 0 <= i < |s| && Classify(s[i]) == k
  }

  /** At least 8 bytes, with an upper-case, a lower-case, a digit and a special character. */
  method IsPassword(value: string) returns (ok: bool)
    ensures ok <==> Utf8Len(value) >= 8 && HasClass(value, Upper) && HasClass(value, Lower)
                    && HasClass(value, Number) && HasClass(value, Special)
  {
    var hasMinLen := Utf8Len(value) >= 8;
    var hasUpper, hasLower, hasNumber, hasSpecial := false, false, false, false;
    var i := 0;
    while i < |value|
      invariant 0 <= i <= |value|
      invariant hasUpper <==> HasClass(value[..i], Upper)
      invariant hasLower <==> HasClass(value[..i], Lower)
      invariant hasNumber <==> HasClass(value[..i], Number)
      invariant hasSpecial <==> HasClass(value[..i], Special)
    {
      var c := value[i];
      assert value[..i + 1] == value[..i] + [c];
      match Classify(c) {
        case Upper => hasUpper := true;
        case Lower => hasLower := true;
        case Number => hasNumber := true;
        case Special => hasSpecial := true;
        case Other =>
      }
      i := i + 1;
    }
    assert value[..i] == value;
    ok := hasMinLen && hasUpper && hasLower && hasNumber && hasSpecial;
  }

  // ---------------------------------------------------------------------
  // Membership
  // ---------------------------------------------------------------------

  /** `value` equals one of `allowedValues`; false for an empty list. */
  method In<T(==)>(value: T, allowedValues: seq<T>) returns (found: bool)
    ensures found <==> exists i :: 0 <= i < |allowedValues| && allowedValues[i] == value
    ensures allowedValues == [] ==> !found
  {
    var i := 0;
    while i < |allowedValues|
      invariant 0 <= i <= |allowedValues|
      invariant forall j :: 0 <= j < i ==> allowedValues[j] != value
    {
      if allowedValues[i] == value {
        return true;
      }
      i := i + 1;
    }
    return false;
  }
}
