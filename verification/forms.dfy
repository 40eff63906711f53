/** forms.py: the password-complexity validator and the declared
    validators of the signup, login and character forms. A form field is
    accepted when its validator chain reports no error; the chain is run the
    way WTForms runs it: `DataRequired` stops the chain on a blank field, any
    other validator adds its error and lets the rest run. */
module Forms {
  import opened Results
  import opened PyStr

  // ---------------------------------------------------------------------
  // ComplexPassword

  /** The four character classes the validator searches for; every
      character falls in exactly one. `Special` is `[^A-Za-z0-9]`: anything
      that is not an ASCII letter or digit, non-ASCII letters included. */
  datatype CharClass = Upper | Lower | Digit | Special

  function ClassOf(c: char): CharClass {
    if 'A' <= c <= 'Z' then Upper
    else if 'a' <= c <= 'z' then Lower
    else if '0' <= c <= '9' then Digit
    else Special
  }

  /** `re.search('[...]', p)` for one class: the index of the leftmost
      character of that class, or None when there is none. */
  function Search(p: string, k: CharClass): (r: Option<nat>)
    ensures r.Some? ==> r.value < |p| && ClassOf(p[r.value]) == k
    ensures r.Some? ==> forall j :: 0 <= j < r.value ==> ClassOf(p[j]) != k
    ensures r.None? <==> forall j :: 0 <= j < |p| ==> ClassOf(p[j]) != k
    decreases |p|
  {
    if |p| == 0 then None
    else if ClassOf(p[0]) == k then Some(0)
    else
      match Search(p[1..], k)
      case None => None
      case Some(i) => Some(i + 1)
  }

  /** `ComplexPassword.__call__` (lines 23-30): a ValidationError unless
      each of the four searches finds a match. One character per class means
      at least four characters, so the empty password is rejected. */
  predicate ComplexPassword(p: string)
    ensures ComplexPassword(p) ==> |p| >= 4
  {
    if || Search(p, Upper).None?
       || Search(p, Lower).None?
       || Search(p, Digit).None?
       || Search(p, Special).None?
    then false
    else
      FourClassesFourChars(p);
      true
  }

  lemma FourClassesFourChars(p: string)
    requires Search(p, Upper).Some? && Search(p, Lower).Some?
    requires Search(p, Digit).Some? && Search(p, Special).Some?
    ensures |p| >= 4
  {
    var u := Search(p, Upper).value;
    var l := Search(p, Lower).value;
    var d := Search(p, Digit).value;
    var s := Search(p, Special).value;
    assert u != l && u != d && u != s && l != d && l != s && d != s;
  }

  /** The complexity rule in plain terms: an ASCII capital, an ASCII small
      letter, an ASCII digit, and a character that is none of these. */
  lemma ComplexPasswordIff(p: string)
    ensures ComplexPassword(p) <==>
              && (exists i :: 0 <= i < |p| && 'A' <= p[i] <= 'Z')
              && (exists i :: 0 <= i < |p| && 'a' <= p[i] <= 'z')
              && (exists i :: 0 <= i < |p| && '0' <= p[i] <= '9')
              && (exists i :: 0 <= i < |p| && !('A' <= p[i] <= 'Z' || 'a' <= p[i] <= 'z' || '0' <= p[i] <= '9'))
  {
    if ComplexPassword(p) {
      var u := Search(p, Upper).value;
      var l := Search(p, Lower).value;
      var d := Search(p, Digit).value;
      var s := Search(p, Special).value;
      assert 'A' <= p[u] <= 'Z';
      assert 'a' <= p[l] <= 'z';
      assert '0' <= p[d] <= '9';
      assert !('A' <= p[s] <= 'Z' || 'a' <= p[s] <= 'z' || '0' <= p[s] <= '9');
    }
  }

  /** The classes that occur in p. */
  function Classes(p: string): (r: set<CharClass>)
    ensures forall k :: k in r <==> Search(p, k).Some?
    ensures |r| <= |p|
    decreases |p|
  {
    if |p| == 0 then {} else {ClassOf(p[0])} + Classes(p[1..])
  }

  /** The classes of a concatenation are those of its parts. */
  lemma {:induction false} ClassesConcat(p: string, q: string)
    ensures Classes(p + q) == Classes(p) + Classes(q)
    decreases |p|
  {
    if |p| == 0 {
      assert p + q == q;
    } else {
      assert (p + q)[0] == p[0];
      assert (p + q)[1..] == p[1..] + q;
      ClassesConcat(p[1..], q);
    }
  }

  /** Adding characters before or after an accepted password keeps it
      accepted. */
  lemma ComplexPasswordGrows(p: string, q: string)
    requires ComplexPassword(p)
    ensures ComplexPassword(p + q) && ComplexPassword(q + p)
  {
    ClassesConcat(p, q);
    ClassesConcat(q, p);
    assert Upper in Classes(p) && Lower in Classes(p) && Digit in Classes(p) && Special in Classes(p);
  }

  /** Any character outside ASCII letters and digits meets the special
      requirement, non-ASCII letters such as 'é' included. */
  lemma AnyOtherIsSpecial(p: string, i: nat)
    requires i < |p| && !('A' <= p[i] <= 'Z' || 'a' <= p[i] <= 'z' || '0' <= p[i] <= '9')
    ensures Search(p, Special).Some?
  {
    assert ClassOf(p[i]) == Special;
  }

  // ---------------------------------------------------------------------
  // WTForms validators

  /** Why a field is refused. */
  datatype FieldError =
    | Required        // DataRequired: missing or blank
    | BadLength       // Length(min, max)
    | Mismatch        // EqualTo('confirm')
    | NotComplex      // ComplexPassword

  /** `DataRequired`: the field holds something other than whitespace; in
      particular it is not empty. */
  predicate DataRequired(s: string)
    ensures DataRequired(s) ==> |s| > 0
  {
    !AllSpace(s)
  }

  /** WTForms refuses a string field whose `strip()` is empty; that is
      exactly a field of whitespace only. */
  lemma {:induction false} DataRequiredIsStrip(s: string)
    ensures DataRequired(s) <==> Strip(s) != ""
  {
    StripEmptyIffAllSpace(s);
  }

  /** `Length(min, max)` with -1 for a bound not given: refused when the
      length is below min or, if max is given, above max. */
  predicate LengthOk(s: string, min: int, max: int)
    ensures LengthOk(s, min, max) <==> min <= |s| && (max == -1 || |s| <= max)
  {
    !(|s| < min || (max != -1 && |s| > max))
  }

  /** The errors a chain `DataRequired(), <rest>` reports: the blank-field
      error alone, or whatever the rest reports. */
  function Chain(s: string, rest: seq<FieldError>): (r: seq<FieldError>)
    ensures r == [] <==> DataRequired(s) && rest == []
    ensures !DataRequired(s) ==> r == [Required]
    ensures DataRequired(s) ==> r == rest
  {
    if DataRequired(s) then rest else [Required]
  }

  function LengthError(s: string, min: int, max: int): seq<FieldError> {
    if LengthOk(s, min, max) then [] else [BadLength]
  }

  // ---------------------------------------------------------------------
  // The WTForms validation loop, as a reference for the chains above

  /** A validator as it appears in a field's `validators=[...]` list. */
  datatype Validator =
    | NotBlank                    // DataRequired()
    | Len(min: int, max: int)     // Length(min=-1, max=-1)
    | Equals(other: string)       // EqualTo(name), given the other field's data
    | Complexity                  // ComplexPassword()

  /** One validator on the field's data: None when it returns, the error it
      raises otherwise. `Length` measures `len(field.data)` and skips the
      upper bound when it is -1. */
  function Check(v: Validator, s: string): Option<FieldError>
  {
    match v
    case NotBlank => if DataRequired(s) then None else Some(Required)
    case Len(min, max) => if |s| < min || (max != -1 && |s| > max) then Some(BadLength) else None
    case Equals(other) => if s == other then None else Some(Mismatch)
    case Complexity => if ComplexPassword(s) then None else Some(NotComplex)
  }

  /** `Field._run_validation_chain`: the validators run in order and each
      ValidationError is appended to the errors so far; `DataRequired`
      instead clears the errors and raises StopValidation, which ends the
      chain with its message alone. */
  function RunChain(vs: seq<Validator>, s: string, errors: seq<FieldError>): (r: seq<FieldError>)
    ensures r == [] ==> errors == []
    ensures |r| <= |errors| + |vs|
    decreases |vs|
  {
    if |vs| == 0 then errors
    else
      match Check(vs[0], s)
      case None => RunChain(vs[1..], s, errors)
      case Some(e) => if vs[0].NotBlank? then [e] else RunChain(vs[1..], s, errors + [e])
  }

  /** The errors a field reports under a declared validator list. */
  function Validate(vs: seq<Validator>, s: string): (r: seq<FieldError>)
    ensures r == [] <==> forall i :: 0 <= i < |vs| ==> Check(vs[i], s).None?
  {
    RunChainEmpty(vs, s, []);
    RunChain(vs, s, [])
  }

  /** The chain reports nothing exactly when nothing was reported before it
      and every validator passes. */
  lemma {:induction false} RunChainEmpty(vs: seq<Validator>, s: string, errors: seq<FieldError>)
    ensures RunChain(vs, s, errors) == [] <==>
              errors == [] && forall i :: 0 <= i < |vs| ==> Check(vs[i], s).None?
    decreases |vs|
  {
    if |vs| > 0 {
      RunChainEmpty(vs[1..], s, errors);
      if Check(vs[0], s).Some? && !vs[0].NotBlank? {
        RunChainEmpty(vs[1..], s, errors + [Check(vs[0], s).value]);
      }
      assert forall i :: 1 <= i < |vs| ==> vs[i] == vs[1..][i - 1];
    }
  }

  /** Without `DataRequired` in it, a chain only appends: the errors it
      reports after earlier ones are those earlier ones followed by its own. */
  lemma {:induction false} RunChainAppends(vs: seq<Validator>, s: string, errors: seq<FieldError>)
    requires forall i :: 0 <= i < |vs| ==> !vs[i].NotBlank?
    ensures RunChain(vs, s, errors) == errors + Validate(vs, s)
    decreases |vs|
  {
    if |vs| > 0 {
      assert !vs[0].NotBlank?;
      RunChainAppends(vs[1..], s, errors);
      match Check(vs[0], s)
      case None =>
      case Some(e) =>
        RunChainAppends(vs[1..], s, errors + [e]);
        RunChainAppends(vs[1..], s, [e]);
        assert [] + [e] == [e];
    }
  }

  /** A chain led by `DataRequired` and no other reports the required error
      alone on a blank field and exactly the rest's errors otherwise: the
      shape Chain gives every declared field. */
  lemma {:induction false} RequiredFirst(s: string, rest: seq<Validator>)
    requires forall i :: 0 <= i < |rest| ==> !rest[i].NotBlank?
    ensures Validate([NotBlank] + rest, s) == Chain(s, Validate(rest, s))
  {
    assert ([NotBlank] + rest)[0] == NotBlank;
    assert ([NotBlank] + rest)[1..] == rest;
  }

  // ---------------------------------------------------------------------
  // Forms

  /** The validated fields of AddUserForm (lines 34-45). */
  datatype SignupForm = SignupForm(username: string, firstName: string, lastName: string,
                                   email: string, password: string, confirm: string)

  /** Username: DataRequired, Length(min=4, max=25). */
  function UsernameErrors(u: string): (r: seq<FieldError>)
    ensures r == [] <==> DataRequired(u) && 4 <= |u| <= 25
  {
    Chain(u, LengthError(u, 4, 25))
  }

  /** Password: DataRequired, Length(min=8), EqualTo('confirm'), ComplexPassword,
      errors reported in that order. */
  function SignupPasswordErrors(p: string, confirm: string): (r: seq<FieldError>)
    ensures r == [] <==> DataRequired(p) && |p| >= 8 && p == confirm && ComplexPassword(p)
    ensures DataRequired(p) ==> (BadLength in r <==> |p| < 8)
    ensures DataRequired(p) ==> (Mismatch in r <==> p != confirm)
    ensures DataRequired(p) ==> (NotComplex in r <==> !ComplexPassword(p))
    ensures Required in r <==> !DataRequired(p)
  {
    Chain(p, LengthError(p, 8, -1)
             + (if p == confirm then [] else [Mismatch])
             + (if ComplexPassword(p) then [] else [NotComplex]))
  }

  /** The whole signup form is accepted when no field reports an error;
      the email's `Email()` check and `UniqueUser` are not part of it. */
  predicate SignupAccepted(f: SignupForm)
    ensures SignupAccepted(f) <==>
              && DataRequired(f.username) && 4 <= |f.username| <= 25
              && DataRequired(f.firstName) && DataRequired(f.lastName) && DataRequired(f.email)
              && DataRequired(f.password) && |f.password| >= 8 && f.password == f.confirm
              && ComplexPassword(f.password)
  {
    && UsernameErrors(f.username) == []
    && Chain(f.firstName, []) == []
    && Chain(f.lastName, []) == []
    && Chain(f.email, []) == []
    && SignupPasswordErrors(f.password, f.confirm) == []
    && Chain(f.confirm, []) == []
  }

  /** The validated fields of LoginForm (lines 50-52). */
  datatype LoginForm = LoginForm(username: string, password: string)

  function LoginPasswordErrors(p: string): (r: seq<FieldError>)
    ensures r == [] <==> DataRequired(p) && |p| >= 8
  {
    Chain(p, LengthError(p, 8, -1))
  }

  predicate LoginAccepted(f: LoginForm)
    ensures LoginAccepted(f) <==> DataRequired(f.username) && DataRequired(f.password) && |f.password| >= 8
  {
    Chain(f.username, []) == [] && LoginPasswordErrors(f.password) == []
  }

  /** A password accepted at signup is accepted at login... */
  lemma {:induction false} SignupPasswordPassesLogin(p: string, confirm: string)
    requires SignupPasswordErrors(p, confirm) == []
    ensures LoginPasswordErrors(p) == []
  {
  }

  /** ...but not conversely: login checks no complexity. */
  lemma LoginDoesNotCheckComplexity()
    ensures LoginPasswordErrors("password") == []
    ensures SignupPasswordErrors("password", "password") == [NotComplex]
  {
    var p := "password";
    assert ClassOf(p[0]) == Lower;
    assert Search(p, Upper).None?;
    assert !IsSpace(p[0]);
  }

  /** The validated fields of CharacterForm (lines 80-84). */
  datatype CharacterForm = CharacterForm(name: string, description: string)

  /** Name: DataRequired, Length(min=2, max=25). */
  function CharacterNameErrors(n: string): (r: seq<FieldError>)
    ensures r == [] <==> DataRequired(n) && 2 <= |n| <= 25
  {
    Chain(n, LengthError(n, 2, 25))
  }

  /** Description: DataRequired, Length(max=250). */
  function DescriptionErrors(d: string): (r: seq<FieldError>)
    ensures r == [] <==> DataRequired(d) && |d| <= 250
  {
    Chain(d, LengthError(d, -1, 250))
  }

  /** An accepted character has a name of 2 to 25 characters and a
      description of 1 to 250 characters, neither of them blank. */
  lemma {:induction false} CharacterBounds(f: CharacterForm)
    requires CharacterNameErrors(f.name) == [] && DescriptionErrors(f.description) == []
    ensures 2 <= |f.name| <= 25 && 1 <= |f.description| <= 250
    ensures !AllSpace(f.name) && !AllSpace(f.description)
  {
  }

  // ---------------------------------------------------------------------
  // The declared lists

  /** forms.py:34-45 without UniqueUser and Email (database lookup and
      email grammar). */
  const UsernameChecks: seq<Validator> := [NotBlank, Len(4, 25)]
  const RequiredOnly: seq<Validator> := [NotBlank]

  function SignupPasswordChecks(confirm: string): seq<Validator> {
    [NotBlank, Len(8, -1), Equals(confirm), Complexity]
  }

  /** forms.py:50-52. */
  const LoginPasswordChecks: seq<Validator> := [NotBlank, Len(8, -1)]

  /** forms.py:80-84 without UniquePerUser. */
  const CharacterNameChecks: seq<Validator> := [NotBlank, Len(2, 25)]
  const DescriptionChecks: seq<Validator> := [NotBlank, Len(-1, 250)]

  /** The errors one validator reports: none, or its own. */
  function Reported(v: Validator, s: string): seq<FieldError> {
    if Check(v, s).None? then [] else [Check(v, s).value]
  }

  /** One step of a chain past a validator other than `DataRequired`. */
  lemma RunChainStep(v: Validator, rest: seq<Validator>, s: string, errors: seq<FieldError>)
    requires !v.NotBlank?
    ensures RunChain([v] + rest, s, errors) == RunChain(rest, s, errors + Reported(v, s))
  {
    assert ([v] + rest)[0] == v && ([v] + rest)[1..] == rest;
    assert errors + [] == errors;
  }

  /** The length error agrees with one run of `Length(min, max)`. */
  lemma {:induction false} LengthErrorIsCheck(s: string, min: int, max: int)
    ensures LengthError(s, min, max) == Validate([Len(min, max)], s)
  {
    RunChainStep(Len(min, max), [], s, []);
    assert [Len(min, max)] + [] == [Len(min, max)];
    assert [] + Reported(Len(min, max), s) == LengthError(s, min, max);
  }

  /** The signup fields report what WTForms reports for their declared lists. */
  lemma {:induction false} SignupChains(f: SignupForm)
    ensures UsernameErrors(f.username) == Validate(UsernameChecks, f.username)
    ensures SignupPasswordErrors(f.password, f.confirm) == Validate(SignupPasswordChecks(f.confirm), f.password)
    ensures SignupAccepted(f) <==>
              && Validate(UsernameChecks, f.username) == []
              && Validate(RequiredOnly, f.firstName) == [] && Validate(RequiredOnly, f.lastName) == []
              && Validate(RequiredOnly, f.email) == []
              && Validate(SignupPasswordChecks(f.confirm), f.password) == []
              && Validate(RequiredOnly, f.confirm) == []
  {
    LengthErrorIsCheck(f.username, 4, 25);
    RequiredFirst(f.username, [Len(4, 25)]);
    assert UsernameChecks == [NotBlank] + [Len(4, 25)];
    var p := f.password;
    var rest := [Len(8, -1), Equals(f.confirm), Complexity];
    assert SignupPasswordChecks(f.confirm) == [NotBlank] + rest;
    RequiredFirst(p, rest);
    PasswordRest(p, f.confirm);
    assert RequiredOnly == [NotBlank] + [];
    RequiredFirst(f.firstName, []);
    RequiredFirst(f.lastName, []);
    RequiredFirst(f.email, []);
    RequiredFirst(f.confirm, []);
  }

  /** The three validators after `DataRequired` on the signup password
      report their errors in declaration order. */
  lemma {:induction false} PasswordRest(p: string, confirm: string)
    ensures Validate([Len(8, -1), Equals(confirm), Complexity], p)
              == LengthError(p, 8, -1)
                 + (if p == confirm then [] else [Mismatch])
                 + (if ComplexPassword(p) then [] else [NotComplex])
  {
    var e1 := Reported(Len(8, -1), p);
    var e2 := Reported(Equals(confirm), p);
    var e3 := Reported(Complexity, p);
    assert [Len(8, -1), Equals(confirm), Complexity] == [Len(8, -1)] + [Equals(confirm), Complexity];
    RunChainStep(Len(8, -1), [Equals(confirm), Complexity], p, []);
    assert [Equals(confirm), Complexity] == [Equals(confirm)] + [Complexity];
    RunChainStep(Equals(confirm), [Complexity], p, [] + e1);
    assert [Complexity] == [Complexity] + [];
    RunChainStep(Complexity, [], p, [] + e1 + e2);
    assert [] + e1 + e2 + e3 == e1 + e2 + e3;
    assert e1 == LengthError(p, 8, -1);
  }

  /** The login password reports what WTForms reports for forms.py:51-52. */
  lemma {:induction false} LoginChains(f: LoginForm)
    ensures LoginPasswordErrors(f.password) == Validate(LoginPasswordChecks, f.password)
    ensures LoginAccepted(f) <==>
              Validate(RequiredOnly, f.username) == [] && Validate(LoginPasswordChecks, f.password) == []
  {
    LengthErrorIsCheck(f.password, 8, -1);
    assert LoginPasswordChecks == [NotBlank] + [Len(8, -1)];
    RequiredFirst(f.password, [Len(8, -1)]);
    assert RequiredOnly == [NotBlank] + [];
    RequiredFirst(f.username, []);
  }

  /** The character fields report what WTForms reports for forms.py:80-84,
      UniquePerUser aside. */
  lemma {:induction false} CharacterChains(f: CharacterForm)
    ensures CharacterNameErrors(f.name) == Validate(CharacterNameChecks, f.name)
    ensures DescriptionErrors(f.description) == Validate(DescriptionChecks, f.description)
  {
    LengthErrorIsCheck(f.name, 2, 25);
    assert CharacterNameChecks == [NotBlank] + [Len(2, 25)];
    RequiredFirst(f.name, [Len(2, 25)]);
    LengthErrorIsCheck(f.description, -1, 250);
    assert DescriptionChecks == [NotBlank] + [Len(-1, 250)];
    RequiredFirst(f.description, [Len(-1, 250)]);
  }
}
