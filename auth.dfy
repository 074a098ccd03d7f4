// Signing in and up: the sign-up form's validators (password strength,
// university e-mail, role from the e-mail's local part, password mismatch,
// the disabled state and the submit checks), the login form's check, and
// the session store that logs users in, out, and registers them.

module Auth {
  import opened Common
  import opened Domain

  // ------------------------------------------------------ password strength

  /** The class `[!@#$%^&*(),.?":{}|<>]`. */
  predicate IsSpecial(c: char) {
    c == '!' || c == '@' || c == '#' || c == '$' || c == '%' || c == '^' || c == '&' || c == '*'
    || c == '(' || c == ')' || c == ',' || c == '.' || c == '?' || c == '"' || c == ':'
    || c == '{' || c == '}' || c == '|' || c == '<' || c == '>'
  }

  predicate Has(p: string, kind: char -> bool) {
    exists i :: 0 <= i < |p| && kind(p[i])
  }

  /** isPasswordStrong: every one of the five checks passes. */
  predicate IsPasswordStrong(p: string) {
    |p| >= 8 && Has(p, IsAsciiUpper) && Has(p, IsAsciiLower) && Has(p, IsAsciiDigit) && Has(p, IsSpecial)
  }

  /** Only the listed punctuation counts as special: a password whose only
    * symbols are '-', '_' or spaces is never strong. */
  lemma DashUnderscoreNotSpecial(p: string)
    requires forall i :: 0 <= i < |p| ==>
      IsAsciiUpper(p[i]) || IsAsciiLower(p[i]) || IsAsciiDigit(p[i]) || p[i] == '-' || p[i] == '_' || p[i] == ' '
    ensures !IsPasswordStrong(p)
  {
    forall i | 0 <= i < |p| ensures !IsSpecial(p[i]) {
    }
    assert !Has(p, IsSpecial);
  }

  /** Strength only depends on which kinds of characters occur: appending a
    * character keeps a strong password strong. */
  lemma StrongExtends(p: string, c: char)
    requires IsPasswordStrong(p)
    ensures IsPasswordStrong(p + [c])
  {
    var q := p + [c];
    var u :| 0 <= u < |p| && IsAsciiUpper(p[u]);
    assert q[u] == p[u];
    var l :| 0 <= l < |p| && IsAsciiLower(p[l]);
    assert q[l] == p[l];
    var d :| 0 <= d < |p| && IsAsciiDigit(p[d]);
    assert q[d] == p[d];
    var s :| 0 <= s < |p| && IsSpecial(p[s]);
    assert q[s] == p[s];
  }

  // ---------------------------------------------------------------- e-mail

  const UniversityDomain := "@kluniversity.in"
  const DomainError := "Email must be a @kluniversity.in address."

  /** validateEmail: (valid, message). An empty value is invalid without a
    * message; any other value is valid exactly when it ends in the domain. */
  function ValidateEmail(value: string): (r: (bool, string))
    ensures r.0 <==> value != [] && EndsWith(value, UniversityDomain)
    ensures r.1 != [] <==> value != [] && !EndsWith(value, UniversityDomain)
  {
    if value == [] then (false, [])
    else if !EndsWith(value, UniversityDomain) then (false, DomainError)
    else (true, [])
  }

  /** `/^\d{10}$/`. */
  predicate TenDigits(s: string) {
    |s| == 10 && forall i :: 0 <= i < |s| ==> IsAsciiDigit(s[i])
  }

  /** Students sign in with their ten-digit number; everyone else is a teacher. */
  function DeriveRole(email: string): (r: Role)
    ensures r == Student <==> TenDigits(BeforeFirst(email, '@'))
    ensures r != Admin
  {
    if TenDigits(BeforeFirst(email, '@')) then Student else Teacher
  }

  /** A valid university address of a ten-digit number is a student's. */
  lemma StudentAddress(local: string)
    requires TenDigits(local)
    ensures DeriveRole(local + UniversityDomain) == Student
    ensures ValidateEmail(local + UniversityDomain).0
  {
    var e := local + UniversityDomain;
    BeforeFirstPrefix(local, UniversityDomain);
    assert e[|e| - |UniversityDomain|..] == UniversityDomain;
  }

  lemma {:induction false} BeforeFirstPrefix(local: string, rest: string)
    requires '@' !in local && rest != [] && rest[0] == '@'
    ensures BeforeFirst(local + rest, '@') == local
    decreases |local|
  {
    if local == [] {
      assert (local + rest)[0] == '@';
    } else {
      assert (local + rest)[1..] == local[1..] + rest;
      BeforeFirstPrefix(local[1..], rest);
    }
  }

  // ------------------------------------------------------------ the forms

  const MismatchError := "Passwords do not match."

  /** The mismatch message after editing one password field: set when the
    * other field is non-empty and differs, cleared otherwise. */
  function MismatchAfterEdit(edited: string, other: string): (r: string)
    ensures r != [] <==> other != [] && edited != other
  {
    if other != [] && edited != other then MismatchError else []
  }

  const FillFieldsError := "Please fill in all fields."
  const WeakPasswordError := "Please ensure your password meets all the strength requirements."

  predicate FieldsFilled(name: string, email: string, password: string, confirm: string) {
    name != [] && email != [] && password != [] && confirm != []
  }

  /** isSignUpDisabled. */
  predicate SignUpDisabled(name: string, email: string, emailError: string, password: string, confirm: string) {
    name == [] || email == [] || password == [] || confirm == [] || emailError != []
    || !IsPasswordStrong(password) || password != confirm
  }

  const MissingCredentialsError := "Please enter both email and password."

  /** What the login form's submit does: sign in with the e-mail, or show an error. */
  datatype LoginOutcome = SignIn(email: string) | Refused(error: string)

  /** The login form passes the e-mail on only when both fields are filled,
    * and otherwise shows the missing-credentials error; the password is
    * otherwise ignored. */
  function LoginAttempt(email: string, password: string): (r: LoginOutcome)
    ensures r.SignIn? <==> email != [] && password != []
    ensures r.SignIn? ==> r.email == email
    ensures r.Refused? ==> r.error == MissingCredentialsError
  {
    if email == [] || password == [] then Refused(MissingCredentialsError) else SignIn(email)
  }

  datatype Registration = Registration(name: string, email: string, role: Role)

  class SignUpForm {
    var name: string
    var email: string
    var emailError: string
    var assignedRole: Option<Role>
    var password: string
    var confirmPassword: string
    var passwordError: string
    var error: string

    /** The e-mail message always reflects the current e-mail, since every
      * edit of the field revalidates it. */
    predicate Valid()
      reads this
    {
      emailError == ValidateEmail(email).1
    }

    constructor ()
      ensures Valid() && name == [] && email == [] && password == [] && confirmPassword == []
      ensures assignedRole == None && passwordError == [] && error == []
    {
      name := [];
      email := [];
      emailError := [];
      assignedRole := None;
      password := [];
      confirmPassword := [];
      passwordError := [];
      error := [];
    }

    method EditName(value: string)
      modifies this
      ensures name == value && email == old(email) && emailError == old(emailError)
      ensures password == old(password) && confirmPassword == old(confirmPassword)
      ensures assignedRole == old(assignedRole) && passwordError == old(passwordError) && error == old(error)
    {
      name := value;
    }

    /** handleEmailChange: revalidates and forgets the assigned role. */
    method EmailChange(value: string)
      modifies this
      ensures email == value && emailError == ValidateEmail(value).1 && assignedRole == None && Valid()
      ensures name == old(name) && password == old(password) && confirmPassword == old(confirmPassword)
      ensures passwordError == old(passwordError) && error == old(error)
    {
      email := value;
      emailError := ValidateEmail(value).1;
      assignedRole := None;
    }

    /** handleEmailBlur: a role is assigned only for a valid address. */
    method EmailBlur()
      modifies this
      ensures emailError == ValidateEmail(email).1 && Valid()
      ensures assignedRole == (if ValidateEmail(email).0 then Some(DeriveRole(email)) else None)
      ensures email == old(email) && name == old(name) && password == old(password)
      ensures confirmPassword == old(confirmPassword) && passwordError == old(passwordError) && error == old(error)
    {
      var (isValid, message) := ValidateEmail(email);
      emailError := message;
      if isValid {
        assignedRole := Some(DeriveRole(email));
      } else {
        assignedRole := None;
      }
    }

    method PasswordChange(value: string)
      modifies this
      ensures password == value && passwordError == MismatchAfterEdit(value, confirmPassword)
      ensures confirmPassword == old(confirmPassword) && email == old(email) && emailError == old(emailError)
      ensures name == old(name) && assignedRole == old(assignedRole) && error == old(error)
    {
      password := value;
      passwordError := MismatchAfterEdit(value, confirmPassword);
    }

    method ConfirmChange(value: string)
      modifies this
      ensures confirmPassword == value && passwordError == MismatchAfterEdit(value, password)
      ensures password == old(password) && email == old(email) && emailError == old(emailError)
      ensures name == old(name) && assignedRole == old(assignedRole) && error == old(error)
    {
      confirmPassword := value;
      passwordError := MismatchAfterEdit(value, password);
    }

    /** handleSubmit: checks the e-mail message, then empty fields, then
      * strength, then the match, and registers with the derived role only
      * when all pass; exactly when the button is enabled. */
    method Submit() returns (registered: Option<Registration>)
      requires Valid()
      modifies this
      ensures Valid() && email == old(email) && password == old(password)
      ensures name == old(name) && confirmPassword == old(confirmPassword) && assignedRole == old(assignedRole)
      ensures registered.Some? <==>
        !SignUpDisabled(old(name), old(email), old(emailError), old(password), old(confirmPassword))
      ensures registered.Some? ==> registered.value == Registration(name, email, DeriveRole(email))
      ensures old(emailError) != [] ==> error == [] && passwordError == old(passwordError)
      ensures old(emailError) == [] && !FieldsFilled(name, email, password, confirmPassword) ==>
        error == FillFieldsError && passwordError == old(passwordError)
      ensures old(emailError) == [] && FieldsFilled(name, email, password, confirmPassword) && !IsPasswordStrong(password) ==>
        error == WeakPasswordError && passwordError == old(passwordError)
      ensures old(emailError) == [] && FieldsFilled(name, email, password, confirmPassword) && IsPasswordStrong(password) ==>
        error == [] && passwordError == (if password != confirmPassword then MismatchError else old(passwordError))
    {
      error := [];
      registered := None;
      var (_, message) := ValidateEmail(email);
      var stale := emailError;
      emailError := message;
      if stale != [] {
        return;
      }
      if !FieldsFilled(name, email, password, confirmPassword) {
        error := FillFieldsError;
        return;
      }
      if !IsPasswordStrong(password) {
        error := WeakPasswordError;
        return;
      }
      if password != confirmPassword {
        passwordError := MismatchError;
        return;
      }
      registered := Some(Registration(name, email, DeriveRole(email)));
    }
  }

  // -------------------------------------------------------------- session

  /** `name.toLowerCase().replace(' ', '')`: only the first space goes. */
  function Username(name: string): (r: string)
    ensures ' ' in name ==> |r| == |name| - 1
    ensures ' ' in name ==>
      r == ToLower(BeforeFirst(name, ' ')) + ToLower(name[|BeforeFirst(name, ' ')| + 1..])
    ensures ' ' !in name ==> r == ToLower(name)
  {
    LowerKeepsSpaces(name);
    UsernameSplit(name);
    RemoveFirst(ToLower(name), ' ')
  }

  /** The first space sits at the same index before and after lower-casing,
    * so removing it commutes with lower-casing. */
  lemma UsernameSplit(name: string)
    ensures ' ' in name ==>
      RemoveFirst(ToLower(name), ' ') == ToLower(BeforeFirst(name, ' ')) + ToLower(name[|BeforeFirst(name, ' ')| + 1..])
  {
    if ' ' in name {
      var b := BeforeFirst(name, ' ');
      var k := |b|;
      assert k < |name| && name[..k] == b;
      var t := ToLower(name);
      FirstSpaceLower(name, k);
      assert t[k] == ' ';
      var r := RemoveFirst(t, ' ');
      assert r == t[..k] + t[k + 1..];
      LowerSlices(name, k);
    }
  }

  /** Lower-casing keeps the index of the first space. */
  lemma FirstSpaceLower(name: string, k: nat)
    requires k < |name| && name[k] == ' ' && ' ' !in name[..k]
    ensures BeforeFirst(ToLower(name), ' ') == ToLower(name)[..k]
  {
    var t := ToLower(name);
    assert t[k] == ' ';
    forall j | 0 <= j < k ensures t[..k][j] != ' ' {
      assert name[..k][j] == name[j];
    }
    BeforeFirstAt(t, ' ', k);
  }

  /** Lower-casing commutes with cutting around index k. */
  lemma LowerSlices(s: string, k: nat)
    requires k < |s|
    ensures ToLower(s)[..k] == ToLower(s[..k]) && ToLower(s)[k + 1..] == ToLower(s[k + 1..])
  {
  }

  /** The text before c is the prefix up to c's first index. */
  lemma BeforeFirstAt(s: string, c: char, k: nat)
    requires k < |s| && s[k] == c && c !in s[..k]
    ensures BeforeFirst(s, c) == s[..k]
  {
  }

  lemma LowerKeepsSpaces(s: string)
    ensures forall i :: 0 <= i < |s| ==> (ToLower(s)[i] == ' ' <==> s[i] == ' ')
    ensures ' ' in s <==> ' ' in ToLower(s)
  {
    var t := ToLower(s);
    if ' ' in t {
      var i :| 0 <= i < |t| && t[i] == ' ';
      assert s[i] == ' ';
    }
  }

  /** A registered username keeps every space of the name but the first. */
  lemma UsernameSpaces(name: string)
    ensures multiset(Username(name))[' '] == if ' ' in name then multiset(name)[' '] - 1 else multiset(name)[' ']
  {
    LowerSpaceCount(name);
    LowerKeepsSpaces(name);
    var t := ToLower(name);
    if ' ' in t {
      var b := BeforeFirst(t, ' ');
      var rest := t[|b| + 1..];
      assert t == b + [' '] + rest;
      assert Username(name) == b + rest;
      assert multiset(t) == multiset(b) + multiset{' '} + multiset(rest);
      assert multiset(Username(name)) == multiset(b) + multiset(rest);
    } else {
      assert Username(name) == t;
    }
  }

  lemma {:induction false} LowerSpaceCount(s: string)
    ensures multiset(ToLower(s))[' '] == multiset(s)[' ']
    decreases |s|
  {
    if s != [] {
      LowerSpaceCount(s[1..]);
      assert ToLower(s) == [LowerChar(s[0])] + ToLower(s[1..]);
      assert s == [s[0]] + s[1..];
      assert LowerChar(s[0]) == ' ' <==> s[0] == ' ';
    }
  }

  function FindByEmail(directory: seq<User>, email: string): (r: Option<User>)
    ensures r.Some? ==> r.value in directory && r.value.email == email
    ensures r.None? <==> forall u :: u in directory ==> u.email != email
    ensures r.Some? ==> exists i :: 0 <= i < |directory| && directory[i] == r.value &&
                                    forall j :: 0 <= j < i ==> directory[j].email != email
  {
    if directory == [] then None
    else if directory[0].email == email then Some(directory[0])
    else
      var r := FindByEmail(directory[1..], email);
      if r.Some? then
        var i :| 0 <= i < |directory[1..]| && directory[1..][i] == r.value &&
                 forall j :: 0 <= j < i ==> directory[1..][j].email != email;
        assert directory[i + 1] == r.value;
        assert forall j :: 1 <= j < i + 1 ==> directory[j] == directory[1..][j - 1];
        r
      else r
  }

  const DemoUserId := "user-1"

  /** The signed-in user, shared by every page. */
  class Session {
    var user: Option<User>
    const directory: seq<User>

    /** The demo directory always holds the fallback account. */
    predicate Valid()
      reads this
    {
      FindUser(directory, DemoUserId).Some?
    }

    constructor (directory: seq<User>, stored: Option<User>)
      requires FindUser(directory, DemoUserId).Some?
      ensures this.directory == directory && user == stored && Valid()
    {
      this.directory := directory;
      user := stored;
    }

    /** isAuthenticated. */
    function IsAuthenticated(): bool
      reads this
    {
      user.Some?
    }

    /** login: the first directory user with that e-mail, or the demo user
      * when there is none; never leaves the session empty. */
    method Login(email: string)
      requires Valid()
      modifies this
      ensures Valid() && IsAuthenticated()
      ensures FindByEmail(directory, email).Some? ==> user == FindByEmail(directory, email)
      ensures FindByEmail(directory, email).None? ==> user == FindUser(directory, DemoUserId)
    {
      var found := FindByEmail(directory, email);
      if found.Some? {
        user := found;
      } else {
        user := FindUser(directory, DemoUserId);
      }
    }

    method Logout()
      modifies this
      ensures user == None && !IsAuthenticated()
    {
      user := None;
    }

    /** register: a new user with exactly the given name, e-mail and role. */
    method Register(id: string, name: string, email: string, role: Role)
      modifies this
      ensures user == Some(User(id, name, Username(name), email, role)) && IsAuthenticated()
    {
      user := Some(User(id, name, Username(name), email, role));
    }
  }
}
