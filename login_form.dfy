/**
 * The sign-in and registration form (src/components/auth/LoginForm.tsx): the password
 * strength flags shown while typing and the checks registration makes before handing the
 * form to `onRegister`.
 */
module LoginForm {
  import opened Common
  import opened Text

  const MIN_PASSWORD_LENGTH: int := 8

  /** Some character of s lies in the range lo..hi (the regular expression `/[lo-hi]/`). */
  function HasCharIn(s: string, lo: char, hi: char): (r: bool)
    ensures r <==> exists i :: 0 <= i < |s| && lo <= s[i] <= hi
    decreases |s|
  {
    if |s| == 0 then false
    else if lo <= s[0] <= hi then true
    else
      var rest := HasCharIn(s[1..], lo, hi);
      assert forall i :: 1 <= i < |s| ==> s[i] == s[1..][i - 1];
      rest
  }

  /** The UTF-16 code units of one character: two for a character above U+FFFF. */
  function CodeUnits(c: char): nat
  {
    if c as int > 0xFFFF then 2 else 1
  }

  /**
   * `s.length` in JavaScript: the number of UTF-16 code units, which exceeds the number of
   * characters by one for every character outside the Basic Multilingual Plane.
   */
  function Utf16Length(s: string): (n: nat)
    ensures |s| <= n <= 2 * |s|
    ensures (forall i :: 0 <= i < |s| ==> s[i] as int <= 0xFFFF) ==> n == |s|
    decreases |s|
  {
    if |s| == 0 then 0
    else
      assert forall i :: 1 <= i < |s| ==> s[1..][i - 1] == s[i];
      CodeUnits(s[0]) + Utf16Length(s[1..])
  }

  /** The code units of a concatenation are those of its parts. */
  lemma {:induction false} Utf16LengthAppend(a: string, b: string)
    ensures Utf16Length(a + b) == Utf16Length(a) + Utf16Length(b)
    decreases |a|
  {
    if |a| == 0 {
      assert a + b == b;
    } else {
      assert (a + b)[0] == a[0];
      assert (a + b)[1..] == a[1..] + b;
      Utf16LengthAppend(a[1..], b);
    }
  }

  /** The five flags `validatePassword` returns. */
  datatype PasswordStrength = PasswordStrength(
    minLength: bool,
    hasUpper: bool,
    hasLower: bool,
    hasNumber: bool,
    isValid: bool)

  /**
   * `validatePassword`: at least eight UTF-16 code units, an upper-case letter, a lower-case
   * letter and a digit (`\d` without the `u` flag is 0-9); valid when all four hold.
   */
  function ValidatePassword(password: string): (r: PasswordStrength)
    ensures r.minLength <==> Utf16Length(password) >= MIN_PASSWORD_LENGTH
    ensures r.hasUpper <==> exists i :: 0 <= i < |password| && 'A' <= password[i] <= 'Z'
    ensures r.hasLower <==> exists i :: 0 <= i < |password| && 'a' <= password[i] <= 'z'
    ensures r.hasNumber <==> exists i :: 0 <= i < |password| && '0' <= password[i] <= '9'
    ensures r.isValid <==> r.minLength && r.hasUpper && r.hasLower && r.hasNumber
  {
    var minLength := Utf16Length(password) >= MIN_PASSWORD_LENGTH;
    var hasUpper := HasCharIn(password, 'A', 'Z');
    var hasLower := HasCharIn(password, 'a', 'z');
    var hasNumber := HasCharIn(password, '0', '9');
    PasswordStrength(minLength, hasUpper, hasLower, hasNumber,
                     minLength && hasUpper && hasLower && hasNumber)
  }

  /** Typing more characters after a valid password keeps it valid. */
  lemma ExtendingKeepsValid(password: string, more: string)
    requires ValidatePassword(password).isValid
    ensures ValidatePassword(password + more).isValid
  {
    var p := password + more;
    Utf16LengthAppend(password, more);
    var u :| 0 <= u < |password| && 'A' <= password[u] <= 'Z';
    var l :| 0 <= l < |password| && 'a' <= password[l] <= 'z';
    var d :| 0 <= d < |password| && '0' <= password[d] <= '9';
    assert p[u] == password[u] && p[l] == password[l] && p[d] == password[d];
  }

  /** A character above U+FFFF on its own is two code units. */
  lemma AstralUnits(c: char)
    requires c as int > 0xFFFF
    ensures Utf16Length([c]) == 2
  {
    assert [c][1..] == [];
  }

  /**
   * Six characters can make a valid password: an upper-case letter, a lower-case letter
   * and a digit followed by three characters outside the Basic Multilingual Plane (three
   * emoji, say), which count as six code units.
   */
  lemma AstralCharactersCountTwice(u: char, l: char, d: char, e1: char, e2: char, e3: char)
    requires 'A' <= u <= 'Z' && 'a' <= l <= 'z' && '0' <= d <= '9'
    requires e1 as int > 0xFFFF && e2 as int > 0xFFFF && e3 as int > 0xFFFF
    ensures |[u, l, d, e1, e2, e3]| == 6 && ValidatePassword([u, l, d, e1, e2, e3]).isValid
  {
    var pw := [u, l, d, e1, e2, e3];
    assert pw == [u, l, d] + ([e1] + ([e2] + [e3]));
    AstralUnits(e1);
    AstralUnits(e2);
    AstralUnits(e3);
    Utf16LengthAppend([e2], [e3]);
    Utf16LengthAppend([e1], [e2] + [e3]);
    Utf16LengthAppend([u, l, d], [e1] + ([e2] + [e3]));
    assert 'A' <= pw[0] <= 'Z' && 'a' <= pw[1] <= 'z' && '0' <= pw[2] <= '9';
  }

  /** The registration form's fields, as typed (the semester input gives a string). */
  datatype RegisterForm = RegisterForm(
    name: string,
    email: string,
    phone: string,
    password: string,
    confirmPassword: string,
    semester: string)

  /** What `onRegister` receives; a semester that does not parse is `NaN`, here None. */
  datatype RegisterData = RegisterData(
    name: string,
    email: string,
    phone: string,
    password: string,
    semester: Option<int>)

  datatype RegisterOutcome =
    | InvalidPassword
    | PasswordsDiffer
    | Register(data: RegisterData)

  /**
   * `handleRegister`: an invalid password is refused first, whatever the confirmation; then
   * a confirmation that differs; otherwise `onRegister` gets the fields with the semester
   * read by `parseInt`.
   */
  function HandleRegister(form: RegisterForm): (r: RegisterOutcome)
    ensures r == InvalidPassword <==> !ValidatePassword(form.password).isValid
    ensures r == PasswordsDiffer <==>
              ValidatePassword(form.password).isValid && form.password != form.confirmPassword
    ensures r.Register? <==>
              ValidatePassword(form.password).isValid && form.password == form.confirmPassword
    ensures r.Register? ==>
              r.data == RegisterData(form.name, form.email, form.phone, form.password,
                                     ParseInt(form.semester))
  {
    if !ValidatePassword(form.password).isValid then InvalidPassword
    else if form.password != form.confirmPassword then PasswordsDiffer
    else Register(RegisterData(form.name, form.email, form.phone, form.password,
                               ParseInt(form.semester)))
  }

  /** The password `onRegister` receives is valid and is the one typed twice. */
  lemma RegisteredPasswordIsValid(form: RegisterForm)
    requires HandleRegister(form).Register?
    ensures var d := HandleRegister(form).data;
            Utf16Length(d.password) >= MIN_PASSWORD_LENGTH
            && (exists i :: 0 <= i < |d.password| && '0' <= d.password[i] <= '9')
            && d.password == form.confirmPassword
  {
  }

  /** A semester typed as a number's decimal notation reaches `onRegister` as that number. */
  lemma RegisterReadsSemester(form: RegisterForm, n: int)
    requires HandleRegister(form).Register?
    requires form.semester == IntToString(n)
    ensures HandleRegister(form).data.semester == Some(n)
  {
    IntToStringRoundTrip(n);
  }
}
