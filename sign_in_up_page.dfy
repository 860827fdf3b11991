/**
 * The sign-in / sign-up page (`src/pages/SignInUpPage.tsx`): the campus
 * e-mail check, the ordered guards of the submit handler, and how the
 * answer of the authentication service is reported.
 */
module SignInUpPage {
  import opened Base
  import opened Text

  /** The only e-mail domain accepted. */
  const Domain := "@aggies.ncat.edu"
  const MinPasswordLength: nat := 6

  const EmailMessage := "You must use a valid NC A&T email (@aggies.ncat.edu)"
  const PasswordMessage := "Password must be at least 6 characters"
  const NameMessage := "Please enter your full name"
  const InvalidCredentialsMessage := "Invalid email or password"
  const UnexpectedMessage := "An unexpected error occurred"

  /** The route opened after a successful sign-in or sign-up. */
  const HomeRoute := "/"

  /** The e-mail ends with the campus domain, letters compared without case; the part before it is not checked. */
  function ValidateEmail(email: string): (ok: bool)
    ensures ok <==> (|Domain| <= |email| &&
      forall i | 0 <= i < |Domain| :: LowerChar(email[|email| - |Domain| + i]) == Domain[i])
  {
    LowerSuffix(email, Domain);
    EndsWith(ToLower(email), Domain)
  }

  /** `toLowerCase().endsWith(suffix)`, character by character. */
  lemma {:induction false} LowerSuffix(email: string, suffix: string)
    ensures EndsWith(ToLower(email), suffix) <==> (|suffix| <= |email| &&
      forall i | 0 <= i < |suffix| :: LowerChar(email[|email| - |suffix| + i]) == suffix[i])
  {
    var lower := ToLower(email);
    if |suffix| <= |email| {
      var k := |email| - |suffix|;
      var tail := lower[k..];
      assert |tail| == |suffix|;
      forall i | 0 <= i < |suffix| ensures tail[i] == LowerChar(email[k + i]) {
        assert tail[i] == lower[k + i];
      }
      if forall i | 0 <= i < |suffix| :: LowerChar(email[k + i]) == suffix[i] {
        assert tail == suffix;
      }
    }
  }

  /** The domain has no capital letters. */
  lemma {:induction false} DomainIsLowerCase()
    ensures forall i | 0 <= i < |Domain| :: LowerChar(Domain[i]) == Domain[i]
  {
    var d := Domain;
    forall i | 0 <= i < |d| ensures LowerChar(d[i]) == d[i] {
      assert !('A' <= d[i] <= 'Z');
    }
  }

  /** Any local part followed by the domain is accepted. */
  lemma {:induction false} AnyLocalPartAccepted(local: string)
    ensures ValidateEmail(local + Domain)
  {
    var email := local + Domain;
    var k := |local|;
    DomainIsLowerCase();
    assert email[k..] == Domain;
    SuffixChars(email, k, Domain);
    assert |email| - |Domain| == k;
  }

  /** The check ignores the case of the address. */
  lemma {:induction false} ValidateEmailIgnoresCase(email: string)
    ensures ValidateEmail(ToLower(email)) == ValidateEmail(email)
  {
    var lower := ToLower(email);
    assert forall i | 0 <= i < |email| :: LowerChar(lower[i]) == lower[i];
  }

  /** The message of the first guard that fails: e-mail, then password length, then (signing up) the name. */
  function GuardError(isSignUp: bool, email: string, password: string, fullName: string): (r: Option<string>)
    ensures r.None? <==>
      ValidateEmail(email) && Utf16Length(password) >= MinPasswordLength && (isSignUp ==> !AllSpace(fullName))
    ensures !ValidateEmail(email) ==> r == Some(EmailMessage)
    ensures ValidateEmail(email) && Utf16Length(password) < MinPasswordLength ==> r == Some(PasswordMessage)
    ensures ValidateEmail(email) && Utf16Length(password) >= MinPasswordLength && isSignUp && AllSpace(fullName)
            ==> r == Some(NameMessage)
  {
    TrimEmpty(fullName);
    if !ValidateEmail(email) then Some(EmailMessage)
    else if Utf16Length(password) < MinPasswordLength then Some(PasswordMessage)
    else if isSignUp && Trim(fullName) == "" then Some(NameMessage)
    else None
  }

  /** Signing in, the name field plays no part. */
  lemma {:induction false} SignInIgnoresName(email: string, password: string, name1: string, name2: string)
    ensures GuardError(false, email, password, name1) == GuardError(false, email, password, name2)
  {
  }

  /** A password of fewer than six characters, none of them outside the Basic Multilingual Plane, is refused. */
  lemma {:induction false} ShortBmpPasswordRefused(isSignUp: bool, email: string, password: string, fullName: string)
    requires ValidateEmail(email) && |password| < MinPasswordLength
    requires forall i | 0 <= i < |password| :: (password[i] as int) < 0x1_0000
    ensures GuardError(isSignUp, email, password, fullName) == Some(PasswordMessage)
  {
    assert Utf16Length(password) == |password|;
  }

  /** Three characters outside the Basic Multilingual Plane count as six, so they pass the length guard. */
  lemma {:induction false} ThreeAstralCharactersPass(isSignUp: bool, email: string, password: string, fullName: string)
    requires ValidateEmail(email) && |password| == 3
    requires forall i | 0 <= i < |password| :: (password[i] as int) >= 0x1_0000
    ensures GuardError(isSignUp, email, password, fullName) != Some(PasswordMessage)
  {
    Utf16LengthAstral(password);
  }

  /** What the authentication service answers; `Throws` is an exception from the call. */
  datatype AuthReply = AuthOk | AuthError(message: string) | Throws

  /** The call made to the authentication service, if any. */
  datatype AuthCall = NoCall | SignInCall(email: string, password: string) | SignUpCall(email: string, password: string, fullName: string)

  class SignInForm {
    var isSignUp: bool
    var email: string
    var password: string
    var fullName: string
    var error: string
    var loading: bool
    /** The route navigated to, if any. */
    var navigatedTo: Option<string>

    constructor()
      ensures !isSignUp && email == "" && password == "" && fullName == ""
      ensures error == "" && !loading && navigatedTo.None?
    {
      isSignUp, email, password, fullName := false, "", "", "";
      error, loading, navigatedTo := "", false, None;
    }

    /** The mode buttons: switching clears the error and keeps the fields. */
    method ChooseMode(signUp: bool)
      modifies this
      ensures isSignUp == signUp && error == ""
      ensures email == old(email) && password == old(password) && fullName == old(fullName)
      ensures loading == old(loading) && navigatedTo == old(navigatedTo)
    {
      isSignUp := signUp;
      error := "";
    }

    method SetFields(email: string, password: string, fullName: string)
      modifies this
      ensures this.email == email && this.password == password && this.fullName == fullName
      ensures isSignUp == old(isSignUp) && error == old(error) && loading == old(loading) && navigatedTo == old(navigatedTo)
    {
      this.email, this.password, this.fullName := email, password, fullName;
    }

    /**
     * The submit handler: a failed guard shows its message and calls
     * nothing; otherwise the service is called, a failed sign-in is reported
     * generically, a failed sign-up with the service's message, and success
     * goes home.
     */
    method HandleSubmit(reply: AuthReply) returns (call: AuthCall)
      modifies this
      ensures isSignUp == old(isSignUp) && email == old(email) && password == old(password) && fullName == old(fullName)
      ensures var refused := GuardError(isSignUp, email, password, fullName);
        && (refused.Some? ==>
              call.NoCall? && error == refused.value && loading == old(loading) && navigatedTo == old(navigatedTo))
        && (refused.None? ==>
              && call == (if isSignUp then SignUpCall(email, password, fullName) else SignInCall(email, password))
              && !loading
              && navigatedTo == (if reply.AuthOk? then Some(HomeRoute) else old(navigatedTo))
              && error == match reply
                          case AuthOk => ""
                          case AuthError(m) => if isSignUp then m else InvalidCredentialsMessage
                          case Throws => UnexpectedMessage)
    {
      error := "";
      var refused := GuardError(isSignUp, email, password, fullName);
      if refused.Some? {
        error := refused.value;
        return NoCall;
      }
      loading := true;
      call := if isSignUp then SignUpCall(email, password, fullName) else SignInCall(email, password);
      match reply {
        case Throws =>
          error := UnexpectedMessage;
        case AuthError(m) =>
          error := if isSignUp then m else InvalidCredentialsMessage;
        case AuthOk =>
          navigatedTo := Some(HomeRoute);
      }
      loading := false;
    }
  }
}
