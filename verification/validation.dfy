/** The FluentValidation property rules the request validators use, on string properties.
    Each `RuleFor` chain runs with the default cascade mode, so every failing rule of every
    chain is reported; a validator's result is the list of failing checks in declaration order. */
module Validation {
  import opened Wrappers
  import opened Text

  datatype Rule =
    | NotNull
    | NotEmpty
    | EmailAddress
    | MinimumLength(min: nat)
    | MaximumLength(max: nat)

  /** One rule applied to one property value (`None` is a null value). */
  datatype Check = Check(property: string, rule: Rule, value: Option<string>)

  /** FluentValidation's default e-mail check (the ASP.NET Core compatible one): exactly one '@',
      neither first nor last. */
  predicate IsEmailAddress(s: string)
  {
    exists k :: 0 < k < |s| - 1 && s[k] == '@' && forall j :: 0 <= j < |s| && j != k ==> s[j] != '@'
  }

  /** Whether a check passes. Length and format rules let a null value through; `NotEmpty`
      rejects null, the empty string and white space. */
  predicate Passes(c: Check)
  {
    match c.rule
    case NotNull => c.value.Some?
    case NotEmpty => c.value.Some? && !IsBlank(c.value.value)
    case EmailAddress => c.value.None? || IsEmailAddress(c.value.value)
    case MinimumLength(n) => c.value.None? || |c.value.value| >= n
    case MaximumLength(n) => c.value.None? || |c.value.value| <= n
  }

  /** The failing checks, in order. */
  function Failures(checks: seq<Check>): (failed: seq<Check>)
    ensures |failed| <= |checks|
    ensures forall c :: c in failed <==> c in checks && !Passes(c)
    ensures failed == [] <==> forall i :: 0 <= i < |checks| ==> Passes(checks[i])
  {
    if checks == [] then []
    else
      var rest := Failures(checks[1..]);
      assert forall i :: 1 <= i < |checks| ==> checks[i] == checks[1..][i - 1];
      if Passes(checks[0]) then rest else [checks[0]] + rest
  }

  /** The failures of two check lists run one after the other. */
  lemma {:induction false} FailuresAppend(a: seq<Check>, b: seq<Check>)
    ensures Failures(a + b) == Failures(a) + Failures(b)
  {
    if a == [] {
      assert a + b == b;
    } else {
      assert (a + b)[0] == a[0];
      assert (a + b)[1..] == a[1..] + b;
      FailuresAppend(a[1..], b);
    }
  }

  /** Two check lists run one after the other pass exactly when each passes. */
  lemma NoFailuresAppend(a: seq<Check>, b: seq<Check>)
    ensures Failures(a + b) == [] <==> Failures(a) == [] && Failures(b) == []
  {
    FailuresAppend(a, b);
  }

  /** Three check lists run one after the other pass exactly when each passes. */
  lemma NoFailures3(a: seq<Check>, b: seq<Check>, c: seq<Check>)
    ensures Failures(a + b + c) == [] <==> Failures(a) == [] && Failures(b) == [] && Failures(c) == []
  {
    NoFailuresAppend(a, b);
    NoFailuresAppend(a + b, c);
  }

  /** The same for four lists. */
  lemma NoFailures4(a: seq<Check>, b: seq<Check>, c: seq<Check>, d: seq<Check>)
    ensures Failures(a + b + c + d) == [] <==>
      Failures(a) == [] && Failures(b) == [] && Failures(c) == [] && Failures(d) == []
  {
    NoFailures3(a, b, c);
    NoFailuresAppend(a + b + c, d);
  }

  /** The same for six lists. */
  lemma NoFailures6(a: seq<Check>, b: seq<Check>, c: seq<Check>, d: seq<Check>, e: seq<Check>, f: seq<Check>)
    ensures Failures(a + b + c + d + e + f) == [] <==>
      && Failures(a) == [] && Failures(b) == [] && Failures(c) == []
      && Failures(d) == [] && Failures(e) == [] && Failures(f) == []
  {
    NoFailures4(a, b, c, d);
    NoFailuresAppend(a + b + c + d, e);
    NoFailuresAppend(a + b + c + d + e, f);
  }

  /** The same for seven lists. */
  lemma NoFailures7(a: seq<Check>, b: seq<Check>, c: seq<Check>, d: seq<Check>, e: seq<Check>, f: seq<Check>,
                    g: seq<Check>)
    ensures Failures(a + b + c + d + e + f + g) == [] <==>
      && Failures(a) == [] && Failures(b) == [] && Failures(c) == []
      && Failures(d) == [] && Failures(e) == [] && Failures(f) == [] && Failures(g) == []
  {
    NoFailures6(a, b, c, d, e, f);
    NoFailuresAppend(a + b + c + d + e + f, g);
  }

  /** `NotNull().NotEmpty()`: the value is present and not blank. */
  function RequiredChecks(property: string, value: Option<string>): (checks: seq<Check>)
    ensures Failures(checks) == [] <==> value.Some? && !IsBlank(value.value)
  {
    var checks := [Check(property, NotNull, value), Check(property, NotEmpty, value)];
    assert Passes(checks[0]) && Passes(checks[1]) <==> forall i :: 0 <= i < |checks| ==> Passes(checks[i]);
    checks
  }

  /** `MinimumLength(min)` and `MaximumLength(max)` as two rules: a null value passes both. */
  function LengthChecks(property: string, value: Option<string>, min: nat, max: nat): (checks: seq<Check>)
    ensures Failures(checks) == [] <==> value.None? || min <= |value.value| <= max
  {
    var checks := [Check(property, MinimumLength(min), value), Check(property, MaximumLength(max), value)];
    assert Passes(checks[0]) && Passes(checks[1]) <==> forall i :: 0 <= i < |checks| ==> Passes(checks[i]);
    checks
  }

  /** `EmailAddress()` and `MaximumLength(max)` as two rules: a null value passes both. */
  function AddressChecks(property: string, value: Option<string>, max: nat): (checks: seq<Check>)
    ensures Failures(checks) == [] <==> value.None? || (IsEmailAddress(value.value) && |value.value| <= max)
  {
    var checks := [Check(property, EmailAddress, value), Check(property, MaximumLength(max), value)];
    assert Passes(checks[0]) && Passes(checks[1]) <==> forall i :: 0 <= i < |checks| ==> Passes(checks[i]);
    checks
  }
}
