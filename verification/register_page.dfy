/** The client-side rules of the registration form: password strength and its label, the
    username and e-mail predicates, and the order of the submit checks. */
module RegisterPage {
  import opened Common
  import opened Text

  const PasswordMinLength: nat := 6

  /** The entries of the password checklist, in the order they are shown and evaluated. */
  datatype Requirement = MinLength | Uppercase | Numeral

  const PasswordRequirements: seq<Requirement> := [MinLength, Uppercase, Numeral]

  function RequirementLabel(req: Requirement): string {
    match req
    case MinLength => "Minimum 6 znaków"
    case Uppercase => "Jedna wielka litera"
    case Numeral => "Jedna cyfra"
  }

  /** `/.{n,}/.test(p)`: somewhere in `p` there are `n` consecutive characters, none of
      them a line terminator. */
  predicate HasRun(p: string, n: nat) {
    exists i | 0 <= i <= |p| - n :: RunAt(p, i, n)
  }

  /** The `n` characters from position `i` on exist and none is a line terminator. */
  predicate RunAt(p: string, i: int, n: nat) {
    0 <= i && i + n <= |p| && forall k | i <= k < i + n :: !IsLineTerminator(p[k])
  }

  /** The regular expression of each requirement, written out as a character predicate. */
  predicate Tests(req: Requirement, p: string) {
    match req
    case MinLength => HasRun(p, PasswordMinLength)
    case Uppercase => exists k | 0 <= k < |p| :: 'A' <= p[k] <= 'Z'
    case Numeral => exists k | 0 <= k < |p| :: '0' <= p[k] <= '9'
  }

  /** How many of `reqs` the password passes. */
  function CountPassed(reqs: seq<Requirement>, p: string): (n: nat)
    ensures n <= |reqs|
    ensures n == |reqs| <==> forall i | 0 <= i < |reqs| :: Tests(reqs[i], p)
    ensures n == 0 <==> forall i | 0 <= i < |reqs| :: !Tests(reqs[i], p)
  {
    if |reqs| == 0 then 0
    else
      var init := reqs[..|reqs| - 1];
      assert forall i | 0 <= i < |init| :: init[i] == reqs[i];
      CountPassed(init, p) + (if Tests(reqs[|reqs| - 1], p) then 1 else 0)
  }

  /** The strength shown under the password field. */
  function Strength(p: string): nat {
    CountPassed(PasswordRequirements, p)
  }

  /** `getPasswordStrength`: one pass over the requirement list, counting the ones passed. */
  method GetPasswordStrength(p: string) returns (strength: nat)
    ensures strength == Strength(p)
    ensures strength <= |PasswordRequirements|
  {
    strength := 0;
    var i := 0;
    while i < |PasswordRequirements|
      invariant 0 <= i <= |PasswordRequirements|
      invariant strength == CountPassed(PasswordRequirements[..i], p)
    {
      assert PasswordRequirements[..i + 1][..i] == PasswordRequirements[..i];
      if Tests(PasswordRequirements[i], p) {
        strength := strength + 1;
      }
      i := i + 1;
    }
    assert PasswordRequirements[..i] == PasswordRequirements;
  }

  /** Every requirement is an "at least" or "contains" test, so appending text never makes a
      passed requirement fail. */
  lemma TestsMonotone(req: Requirement, p: string, q: string)
    requires Tests(req, p)
    ensures Tests(req, p + q)
  {
    match req
    case MinLength =>
      var i :| 0 <= i <= |p| - PasswordMinLength && RunAt(p, i, PasswordMinLength);
      assert forall k | i <= k < i + PasswordMinLength :: (p + q)[k] == p[k];
      assert RunAt(p + q, i, PasswordMinLength);
    case Uppercase =>
      var k :| 0 <= k < |p| && 'A' <= p[k] <= 'Z';
      assert (p + q)[k] == p[k];
    case Numeral =>
      var k :| 0 <= k < |p| && '0' <= p[k] <= '9';
      assert (p + q)[k] == p[k];
  }

  lemma {:induction false} CountPassedMonotone(reqs: seq<Requirement>, p: string, q: string)
    ensures CountPassed(reqs, p) <= CountPassed(reqs, p + q)
  {
    if |reqs| > 0 {
      CountPassedMonotone(reqs[..|reqs| - 1], p, q);
      if Tests(reqs[|reqs| - 1], p) {
        TestsMonotone(reqs[|reqs| - 1], p, q);
      }
    }
  }

  /** Typing more characters never lowers the strength. */
  lemma StrengthMonotone(p: string, q: string)
    ensures Strength(p) <= Strength(p + q)
  {
    CountPassedMonotone(PasswordRequirements, p, q);
  }

  /** Full strength implies the password passes the length check run on submit. */
  lemma FullStrengthMeetsMinLength(p: string)
    requires Strength(p) == |PasswordRequirements|
    ensures |p| >= PasswordMinLength
  {
    assert Tests(PasswordRequirements[0], p);
  }

  /** The converse fails: the length check counts line terminators, the strength rule does
      not, so a six-character password can miss the length requirement. */
  lemma LengthDoesNotImplyMinLengthRequirement()
    ensures |"abc\ndef"| >= PasswordMinLength && !Tests(MinLength, "abc\ndef")
  {
    var p := "abc\ndef";
    forall i | 0 <= i <= |p| - PasswordMinLength
      ensures !RunAt(p, i, PasswordMinLength)
    {
      assert i <= 3 < i + PasswordMinLength && IsLineTerminator(p[3]);
    }
    assert !HasRun(p, PasswordMinLength);
  }

  datatype StrengthInfo = StrengthInfo(text: string, variant: string)

  /** `getPasswordStrengthLabel`. */
  function StrengthLabel(strength: int): StrengthInfo {
    if strength == 0 || strength == 1 then StrengthInfo("Słabe", "danger")
    else if strength == 2 then StrengthInfo("Średnie", "warning")
    else if strength == 3 then StrengthInfo("Silne", "success")
    else StrengthInfo("", "secondary")
  }

  /** For every password the label is one of the three named levels, never the fallback;
      it reads "Silne" exactly when every requirement passes and "Słabe" exactly when at
      most one does. */
  lemma StrengthLabelOfPassword(p: string)
    ensures StrengthLabel(Strength(p)).text != ""
    ensures StrengthLabel(Strength(p)).variant != "secondary"
    ensures StrengthLabel(Strength(p)).variant == "success" <==>
      forall i | 0 <= i < |PasswordRequirements| :: Tests(PasswordRequirements[i], p)
    ensures StrengthLabel(Strength(p)).text == "Słabe" <==> Strength(p) <= 1
  {
  }

  /** `isUsernameValid`. */
  predicate IsUsernameValid(u: string) {
    |u| >= 3
  }

  /** Neither white space nor '@': the class `[^\s@]`. */
  predicate NoSpaceOrAt(s: string) {
    forall k | 0 <= k < |s| :: !IsSpace(s[k]) && s[k] != '@'
  }

  /** `/^[^\s@]+@[^\s@]+\.[^\s@]+$/.test(s)`: `s` splits as a non-empty run, '@', a non-empty
      run, '.', a non-empty run, where no run holds white space or '@'. */
  predicate IsEmailValid(s: string) {
    exists i, k | 0 < i < |s| && i + 1 < k < |s| - 1 ::
      && s[i] == '@' && s[k] == '.'
      && NoSpaceOrAt(s[..i]) && NoSpaceOrAt(s[i + 1..k]) && NoSpaceOrAt(s[k + 1..])
  }

  /** The shape of an accepted address, stated without the regular expression. */
  ghost predicate AddressShape(s: string) {
    && (forall j | 0 <= j < |s| :: !IsSpace(s[j]))
    && exists i | 0 < i < |s| ::
      && s[i] == '@'
      && (forall j | 0 <= j < |s| && j != i :: s[j] != '@')
      && exists k | i + 1 < k < |s| - 1 :: s[k] == '.'
  }

  /** A character inside a run of the class `[^\s@]` is neither white space nor '@'. */
  lemma InRun(s: string, lo: nat, hi: nat, j: nat)
    requires lo <= j < hi <= |s| && NoSpaceOrAt(s[lo..hi])
    ensures !IsSpace(s[j]) && s[j] != '@'
  {
    assert s[j] == s[lo..hi][j - lo];
  }

  /** Every accepted address has the shape. */
  lemma EmailValidHasShape(s: string)
    requires IsEmailValid(s)
    ensures AddressShape(s)
  {
    var i, k :| 0 < i < |s| && i + 1 < k < |s| - 1 && s[i] == '@' && s[k] == '.'
      && NoSpaceOrAt(s[..i]) && NoSpaceOrAt(s[i + 1..k]) && NoSpaceOrAt(s[k + 1..]);
    RunsAroundAt(s, i, k);
    assert i + 1 < k < |s| - 1 && s[k] == '.';
  }

  /** Three runs of `[^\s@]` joined by '@' and '.' hold no white space, and no '@' but the
      one at `i`. */
  lemma RunsAroundAt(s: string, i: nat, k: nat)
    requires 0 < i && i + 1 < k < |s| - 1 && s[i] == '@' && s[k] == '.'
    requires NoSpaceOrAt(s[..i]) && NoSpaceOrAt(s[i + 1..k]) && NoSpaceOrAt(s[k + 1..])
    ensures forall j | 0 <= j < |s| :: !IsSpace(s[j])
    ensures forall j | 0 <= j < |s| && j != i :: s[j] != '@'
  {
    assert s[..i] == s[0..i];
    assert s[k + 1..] == s[k + 1..|s|];
    forall j | 0 <= j < |s|
      ensures !IsSpace(s[j]) && (j != i ==> s[j] != '@')
    {
      if j < i {
        InRun(s, 0, i, j);
      } else if i < j < k {
        InRun(s, i + 1, k, j);
      } else if k < j {
        InRun(s, k + 1, |s|, j);
      }
    }
  }


  /** Every address of that shape is accepted. */
  lemma ShapeIsEmailValid(s: string)
    requires AddressShape(s)
    ensures IsEmailValid(s)
  {
    var i :| 0 < i < |s| && s[i] == '@' && (forall j | 0 <= j < |s| && j != i :: s[j] != '@')
      && exists k | i + 1 < k < |s| - 1 :: s[k] == '.';
    var k :| i + 1 < k < |s| - 1 && s[k] == '.';
    assert NoSpaceOrAt(s[..i]);
    assert NoSpaceOrAt(s[i + 1..k]);
    assert NoSpaceOrAt(s[k + 1..]);
  }

  /** An address is accepted exactly when it has no white space, exactly one '@' with a
      non-empty part before it, and a '.' after it that is neither the first nor the last
      character of the domain. */
  lemma EmailValidIffShape(s: string)
    ensures IsEmailValid(s) <==> AddressShape(s)
  {
    if IsEmailValid(s) {
      EmailValidHasShape(s);
    }
    if AddressShape(s) {
      ShapeIsEmailValid(s);
    }
  }

  datatype RegisterForm = RegisterForm(username: string, email: string, password: string, confirmPassword: string)

  datatype Touched = Touched(username: bool, email: bool, password: bool, confirmPassword: bool)

  datatype RegisterRequest = RegisterRequest(username: string, email: string, password: string)

  /** The four submit checks, in the order `handleSubmit` runs them. */
  datatype Check = UsernameCheck | EmailCheck | PasswordLengthCheck | ConfirmationCheck

  const SubmitChecks: seq<Check> := [UsernameCheck, EmailCheck, PasswordLengthCheck, ConfirmationCheck]

  predicate Passes(c: Check, f: RegisterForm) {
    match c
    case UsernameCheck => IsUsernameValid(f.username)
    case EmailCheck => IsEmailValid(f.email)
    case PasswordLengthCheck => |f.password| >= PasswordMinLength
    case ConfirmationCheck => f.password == f.confirmPassword
  }

  function CheckMessage(c: Check): string {
    match c
    case UsernameCheck => "Nazwa użytkownika musi mieć minimum 3 znaki"
    case EmailCheck => "Podaj poprawny adres email"
    case PasswordLengthCheck => "Hasło musi mieć minimum 6 znaków"
    case ConfirmationCheck => "Hasła nie są identyczne"
  }

  datatype SubmitResult = SubmitResult(
    touched: Touched,
    error: string,
    request: Option<RegisterRequest>,
    navigateTo: Option<string>,
    loading: bool)

  /** `handleSubmit`, given how the registration call ends if it is made. */
  function HandleSubmit(f: RegisterForm, call: Answer<()>): (r: SubmitResult)
    ensures r.touched == Touched(true, true, true, true)
    ensures !r.loading
    ensures r.request.Some? <==> forall i | 0 <= i < |SubmitChecks| :: Passes(SubmitChecks[i], f)
    ensures r.request.Some? ==> r.request.value == RegisterRequest(f.username, f.email, f.password)
    ensures r.request.None? ==>
      exists i | 0 <= i < |SubmitChecks| ::
        && !Passes(SubmitChecks[i], f)
        && (forall j | 0 <= j < i :: Passes(SubmitChecks[j], f))
        && r.error == CheckMessage(SubmitChecks[i])
    ensures r.navigateTo.Some? <==> r.request.Some? && call.Returned?
    ensures r.navigateTo.Some? ==> r.navigateTo.value == "/" && r.error == ""
    ensures r.request.Some? && call.Threw? ==> r.error == call.message
  {
    var touched := Touched(true, true, true, true);
    if !IsUsernameValid(f.username) then
      assert !Passes(SubmitChecks[0], f);
      SubmitResult(touched, CheckMessage(UsernameCheck), None, None, false)
    else if !IsEmailValid(f.email) then
      assert Passes(SubmitChecks[0], f) && !Passes(SubmitChecks[1], f);
      SubmitResult(touched, CheckMessage(EmailCheck), None, None, false)
    else if |f.password| < PasswordMinLength then
      assert Passes(SubmitChecks[0], f) && Passes(SubmitChecks[1], f) && !Passes(SubmitChecks[2], f);
      SubmitResult(touched, CheckMessage(PasswordLengthCheck), None, None, false)
    else if f.password != f.confirmPassword then
      assert Passes(SubmitChecks[0], f) && Passes(SubmitChecks[1], f) && Passes(SubmitChecks[2], f);
      assert !Passes(SubmitChecks[3], f);
      SubmitResult(touched, CheckMessage(ConfirmationCheck), None, None, false)
    else
      var request := Some(RegisterRequest(f.username, f.email, f.password));
      match call
      case Returned(_) => SubmitResult(touched, "", request, Some("/"), false)
      case Threw(message) => SubmitResult(touched, message, request, None, false)
  }
}
