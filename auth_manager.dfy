/**
 * The login page's AuthManager: username normalisation, the login
 * resolver (identifier -> email -> sign-in -> role -> scene) and the
 * teacher / student registration flows, over the Firestore back end.
 */
module LoginPage {
  import opened Wrappers
  import opened Text
  import opened Firestore

  // ---------------------------------------------------------------- Key

  /** The normalised username key: "" for null or blank input, else trimmed and lower-cased. */
  function Key(s: Option<string>): (k: string)
    ensures k == "" <==> IsNullOrWhiteSpace(s)
    ensures Trimmed(k)
  {
    if IsNullOrWhiteSpace(s) then ""
    else
      TrimEmptyIff(s.value);
      ToLowerKeepsTrimmed(Trim(s.value));
      ToLower(Trim(s.value))
  }

  lemma {:induction false} KeyIdempotent(s: Option<string>)
    ensures Key(Some(Key(s))) == Key(s)
  {
    var k := Key(s);
    if k != "" {
      assert !IsWhiteSpace(k[0]);
      TrimOfTrimmed(k);
      ToLowerIdempotent(Trim(s.value));
    }
  }

  lemma {:induction false} TrimStartToLower(s: string)
    ensures TrimStart(ToLower(s)) == ToLower(TrimStart(s))
    decreases |s|
  {
    if |s| > 0 {
      LowerCharKeepsWhiteSpace(s[0]);
      if IsWhiteSpace(s[0]) {
        assert ToLower(s)[1..] == ToLower(s[1..]);
        TrimStartToLower(s[1..]);
      }
    }
  }

  lemma {:induction false} TrimEndToLower(s: string)
    ensures TrimEnd(ToLower(s)) == ToLower(TrimEnd(s))
    decreases |s|
  {
    if |s| > 0 {
      LowerCharKeepsWhiteSpace(s[|s| - 1]);
      if IsWhiteSpace(s[|s| - 1]) {
        assert ToLower(s)[..|s| - 1] == ToLower(s[..|s| - 1]);
        TrimEndToLower(s[..|s| - 1]);
      } else {
        assert ToLower(TrimEnd(s)) == ToLower(s);
      }
    }
  }

  /** Case does not matter: "ALICE", "Alice" and "alice" share one key. */
  lemma {:induction false} KeyIgnoresCase(s: string)
    ensures Key(Some(ToLower(s))) == Key(Some(s))
  {
    forall i | 0 <= i < |s| ensures IsWhiteSpace(ToLower(s)[i]) == IsWhiteSpace(s[i]) {
      LowerCharKeepsWhiteSpace(s[i]);
    }
    TrimStartToLower(s);
    TrimEndToLower(TrimStart(s));
    ToLowerIdempotent(Trim(s));
  }

  /** Surrounding white space does not matter: "  alice " and "alice" share one key. */
  lemma {:induction false} KeyIgnoresPadding(s: string)
    ensures Key(Some(Trim(s))) == Key(Some(s))
  {
    TrimEmptyIff(s);
    if !AllWhiteSpace(s) {
      TrimOfTrimmed(Trim(s));
      TrimEmptyIff(Trim(s));
    }
  }

  /** The blank cases of the page's own unit tests: nothing to normalise. */
  lemma KeyExampleBlank()
    ensures Key(Some("")) == "" && Key(Some("   ")) == "" && Key(None) == ""
  {
  }

  /** The normalisation cases of the page's own unit tests, one lemma each. */
  lemma KeyExamplePadded()
    ensures Key(Some(" Alice ")) == "alice"
  {
    assert " Alice " == " " + "Alice" + " ";
    PaddedExample(" ", "Alice", " ", "alice");
  }

  lemma KeyExampleUpper()
    ensures Key(Some("ALICE")) == "alice"
  {
    assert "ALICE" == "" + "ALICE" + "";
    PaddedExample("", "ALICE", "", "alice");
  }

  lemma KeyExampleDotted()
    ensures Key(Some("  Alice.Bob  ")) == "alice.bob"
  {
    assert "  Alice.Bob  " == "  " + "Alice.Bob" + "  ";
    PaddedExample("  ", "Alice.Bob", "  ", "alice.bob");
  }

  lemma PaddedExample(pre: string, word: string, post: string, lower: string)
    requires AllWhiteSpace(pre) && AllWhiteSpace(post)
    requires word != [] && Trimmed(word)
    requires |lower| == |word| && forall i :: 0 <= i < |word| ==> LowerChar(word[i]) == lower[i]
    ensures Key(Some(pre + word + post)) == lower
  {
    PaddedKey(pre, word, post);
  }

  /** Key of a padded word is the lower-cased word. */
  lemma PaddedKey(pre: string, word: string, post: string)
    requires AllWhiteSpace(pre) && AllWhiteSpace(post)
    requires word != [] && Trimmed(word)
    ensures Key(Some(pre + word + post)) == ToLower(word)
  {
    var s := pre + word + post;
    assert s[|pre|] == word[0];
    TrimPadded(pre, word, post);
  }

  lemma TrimPadded(pre: string, word: string, post: string)
    requires AllWhiteSpace(pre) && AllWhiteSpace(post)
    requires word != [] && Trimmed(word)
    ensures Trim(pre + word + post) == word
  {
    assert pre + word + post == pre + (word + post);
    TrimStartPadded(pre, word + post);
    TrimEndPadded(word, post);
  }

  lemma {:induction false} TrimStartPadded(pre: string, rest: string)
    requires AllWhiteSpace(pre) && (rest == [] || !IsWhiteSpace(rest[0]))
    ensures TrimStart(pre + rest) == rest
    decreases |pre|
  {
    if pre == [] {
      assert pre + rest == rest;
    } else {
      assert (pre + rest)[1..] == pre[1..] + rest;
      TrimStartPadded(pre[1..], rest);
    }
  }

  lemma {:induction false} TrimEndPadded(rest: string, post: string)
    requires AllWhiteSpace(post) && (rest == [] || !IsWhiteSpace(rest[|rest| - 1]))
    ensures TrimEnd(rest + post) == rest
    decreases |post|
  {
    if post == [] {
      assert rest + post == rest;
    } else {
      assert (rest + post)[..|rest + post| - 1] == rest + post[..|post| - 1];
      TrimEndPadded(rest, post[..|post| - 1]);
    }
  }

  // ------------------------------------------------------ error messages

  /** The login page's switch over a failed sign-in; everything unlisted is "Login Failed!". */
  function LoginErrorMessage(ex: Exception): (msg: string)
    ensures msg == "Login Failed!" <==>
              !(ex.FirebaseException? &&
                ex.code in {MissingEmail, MissingPassword, WrongPassword, InvalidEmail, UserNotFound})
  {
    match ex
    case OtherException => "Login Failed!"
    case FirebaseException(code) =>
      match code
      case MissingEmail => "Missing Email"
      case MissingPassword => "Missing Password"
      case WrongPassword => "Wrong Password"
      case InvalidEmail => "Invalid Email"
      case UserNotFound => "Account does not exist"
      case _ => "Login Failed!"
  }

  /** `HandleAuthError`: five codes have texts, any other code shows its own name. */
  function RegisterErrorMessage(ex: Exception): (msg: string)
    ensures ex.OtherException? ==> msg == "Register failed"
    ensures ex.FirebaseException? &&
            ex.code !in {MissingEmail, MissingPassword, WeakPassword, EmailAlreadyInUse, InvalidEmail}
            ==> msg == ErrorName(ex.code)
  {
    match ex
    case OtherException => "Register failed"
    case FirebaseException(code) =>
      match code
      case MissingEmail => "Missing Email"
      case MissingPassword => "Missing Password"
      case WeakPassword => "Weak Password"
      case EmailAlreadyInUse => "Email already in use"
      case InvalidEmail => "Invalid Email"
      case _ => ErrorName(code)
  }

  /** The registration texts the page's own unit tests expect: five named codes and the
      fallback for an exception that is not Firebase's. */
  lemma RegisterMessageCases()
    ensures RegisterErrorMessage(FirebaseException(MissingEmail)) == "Missing Email"
    ensures RegisterErrorMessage(FirebaseException(MissingPassword)) == "Missing Password"
    ensures RegisterErrorMessage(FirebaseException(WeakPassword)) == "Weak Password"
    ensures RegisterErrorMessage(FirebaseException(EmailAlreadyInUse)) == "Email already in use"
    ensures RegisterErrorMessage(FirebaseException(InvalidEmail)) == "Invalid Email"
    ensures RegisterErrorMessage(OtherException) == "Register failed"
  {
  }

  /** The mapped login codes get five different texts, none of them the fallback. */
  lemma LoginMessagesDistinct(a: AuthError, b: AuthError)
    requires a in {MissingEmail, MissingPassword, WrongPassword, InvalidEmail, UserNotFound}
    requires b in {MissingEmail, MissingPassword, WrongPassword, InvalidEmail, UserNotFound}
    ensures LoginErrorMessage(FirebaseException(a)) == LoginErrorMessage(FirebaseException(b)) <==> a == b
  {
  }

  /** The two switches fall back differently, but agree on the codes both of them list. */
  lemma ErrorFallbacksDiffer(name: string)
    ensures LoginErrorMessage(OtherException) == "Login Failed!"
    ensures RegisterErrorMessage(OtherException) == "Register failed"
    ensures LoginErrorMessage(FirebaseException(OtherAuthError(name))) == "Login Failed!"
    ensures RegisterErrorMessage(FirebaseException(OtherAuthError(name))) == name
    ensures LoginErrorMessage(FirebaseException(WeakPassword)) == "Login Failed!"
    ensures RegisterErrorMessage(FirebaseException(WrongPassword)) == "WrongPassword"
    ensures forall c :: c in {MissingEmail, MissingPassword, InvalidEmail} ==>
              LoginErrorMessage(FirebaseException(c)) == RegisterErrorMessage(FirebaseException(c))
  {
  }

  // --------------------------------------------------------------- login

  /** Where the login flow goes after its identifier step. */
  datatype Resolution =
    | Email(address: string)  // sign in with this email
    | Warning(text: string)   // stop and show this text
    | Threw                   // the mapping lacks a string "email": GetValue throws

  /** Resolving a login identifier: an email is used as typed (trimmed);
      a username is looked up in usernames/{Key}. */
  function ResolveIdentifier(docs: map<Path, Doc>, identifier: string, lookupOk: bool): (r: Resolution)
    ensures '@' in Trim(identifier) ==> r == Email(Trim(identifier))
    ensures r.Warning? ==> r.text == "Network or permissions error." || r.text == "Username not found."
    ensures r.Threw? ==> '@' !in Trim(identifier) && lookupOk && UsernameDoc(Key(Some(Trim(identifier)))) in docs
  {
    var input := Trim(identifier);
    if '@' in input then Email(input)
    else
      match ReadAt(docs, UsernameDoc(Key(Some(input))), lookupOk)
      case Faulted => Warning("Network or permissions error.")
      case Missing => Warning("Username not found.")
      case Found(d) => if StrField(d, "email").Some? then Email(StrField(d, "email").value) else Threw
  }

  /** The calls the identifier step makes: none for an email, one lookup for a username. */
  function LookupCalls(identifier: string): seq<Call> {
    if '@' in Trim(identifier) then [] else [Call.Get(UsernameDoc(Key(Some(identifier))))]
  }

  /** An identifier with an '@' never consults the username map. */
  lemma EmailPathSkipsLookup(docs: map<Path, Doc>, docs': map<Path, Doc>, identifier: string, ok: bool, ok': bool)
    requires '@' in Trim(identifier)
    ensures ResolveIdentifier(docs, identifier, ok) == ResolveIdentifier(docs', identifier, ok')
    ensures ResolveIdentifier(docs, identifier, ok) == Email(Trim(identifier))
    ensures LookupCalls(identifier) == []
  {
  }

  /** A username resolves to the email stored at usernames/{Key(username)},
      whatever its case and padding; a missing mapping or a faulted read is a warning. */
  lemma {:induction false} UsernamePathUsesMapping(docs: map<Path, Doc>, identifier: string, ok: bool)
    requires '@' !in Trim(identifier)
    ensures var p := UsernameDoc(Key(Some(identifier)));
            && (!ok ==> ResolveIdentifier(docs, identifier, ok) == Warning("Network or permissions error."))
            && (ok && p !in docs ==> ResolveIdentifier(docs, identifier, ok) == Warning("Username not found."))
            && (ok && p in docs && StrField(docs[p], "email").Some? ==>
                  ResolveIdentifier(docs, identifier, ok) == Email(StrField(docs[p], "email").value))
  {
    KeyIgnoresPadding(identifier);
  }

  /** Two identifiers that differ only in case and padding resolve alike. */
  lemma {:induction false} ResolutionIgnoresCaseAndPadding(docs: map<Path, Doc>, identifier: string, ok: bool)
    requires '@' !in Trim(identifier)
    ensures ResolveIdentifier(docs, ToLower(identifier), ok) == ResolveIdentifier(docs, identifier, ok)
  {
    KeyIgnoresPadding(identifier);
    KeyIgnoresPadding(ToLower(identifier));
    KeyIgnoresCase(identifier);
    TrimStartToLower(identifier);
    TrimEndToLower(TrimStart(identifier));
    assert Trim(ToLower(identifier)) == ToLower(Trim(identifier));
    var t := Trim(identifier);
    assert '@' !in ToLower(t) by {
      forall i | 0 <= i < |t| ensures ToLower(t)[i] != '@' { assert t[i] != '@'; }
    }
  }

  /** The scene for a role: exactly "teacher" goes to the teacher's class list. */
  function SceneForRole(role: string): (scene: string)
    ensures scene == "TeacherClassSelect" <==> role == "teacher"
    ensures scene == "TeacherClassSelect" || scene == "StudentCharacterSelect"
  {
    if role == "teacher" then "TeacherClassSelect" else "StudentCharacterSelect"
  }

  /** The scene a users/{uid} read leads to; none when faulted, absent or without a string role. */
  function ProfileScene(s: Snapshot): (scene: Option<string>)
    ensures scene.Some? <==> s.Found? && StrField(s.doc, "role").Some?
    ensures scene.Some? ==> scene.value == SceneForRole(StrField(s.doc, "role").value)
  {
    if s.Found? && StrField(s.doc, "role").Some? then Some(SceneForRole(StrField(s.doc, "role").value))
    else None
  }

  // -------------------------------------------------------- registration

  /** The texts of one registration form (the student form has no email field). */
  datatype RegisterForm = RegisterForm(
    username: string, firstName: string, lastName: string,
    email: string, password: string, passwordVerify: string)

  /** The first failing check, in the order the flow runs them. */
  function ValidationError(isTeacher: bool, f: RegisterForm): (err: Option<string>)
    ensures err.None? <==>
              && Key(Some(f.username)) != ""
              && (isTeacher ==> Trim(f.email) != "")
              && f.password != ""
              && f.password == f.passwordVerify
    ensures Key(Some(f.username)) == "" ==> err == Some("Missing Username")
    ensures Key(Some(f.username)) != "" && isTeacher && Trim(f.email) == "" ==>
              err == Some("Missing Email")
    ensures !isTeacher ==> err != Some("Missing Email")
    ensures Key(Some(f.username)) != "" && (isTeacher ==> Trim(f.email) != "") && f.password == "" ==>
              err == Some("Missing Password")
    ensures Key(Some(f.username)) != "" && (isTeacher ==> Trim(f.email) != "") && f.password != ""
              && f.password != f.passwordVerify ==>
              err == Some("Passwords do not match")
  {
    if Key(Some(f.username)) == "" then Some("Missing Username")
    else if isTeacher && Trim(f.email) == "" then Some("Missing Email")
    else if f.password == "" then Some("Missing Password")
    else if f.password != f.passwordVerify then Some("Passwords do not match")
    else None
  }

  function RoleName(isTeacher: bool): string {
    if isTeacher then "teacher" else "student"
  }

  /** The account email: the typed one for a teacher, a synthetic one for a student. */
  function AccountEmail(isTeacher: bool, f: RegisterForm): string {
    if isTeacher then Trim(f.email) else Key(Some(f.username)) + "@students.example"
  }

  /** users/{uid}: the display-cased username, the names, the email and the role. */
  function ProfileDoc(uid: string, isTeacher: bool, f: RegisterForm): Doc {
    map["uid" := Str(uid), "username" := Str(Trim(f.username)),
        "firstName" := Str(Trim(f.firstName)), "lastName" := Str(Trim(f.lastName)),
        "email" := Str(AccountEmail(isTeacher, f)), "role" := Str(RoleName(isTeacher))]
  }

  /** usernames/{key}: the uid, email and role of the account. */
  function MappingDoc(uid: string, isTeacher: bool, f: RegisterForm): Doc {
    map["uid" := Str(uid), "email" := Str(AccountEmail(isTeacher, f)), "role" := Str(RoleName(isTeacher))]
  }

  /** A student's synthetic email is the key at "@students.example", so it is unique per key. */
  lemma SyntheticEmailInjective(f: RegisterForm, g: RegisterForm)
    ensures AccountEmail(false, f) == AccountEmail(false, g) <==> Key(Some(f.username)) == Key(Some(g.username))
  {
    var a, b := Key(Some(f.username)), Key(Some(g.username));
    if a + "@students.example" == b + "@students.example" {
      assert a == (a + "@students.example")[..|a|];
      assert |a| == |b|;
      assert b == (b + "@students.example")[..|b|];
    }
  }

  /** After a successful registration, logging in with the same username in any
      case or padding finds the account's email. */
  lemma {:induction false} RegisteredUsernameResolves(
    docs: map<Path, Doc>, uid: string, isTeacher: bool, f: RegisterForm, identifier: string)
    requires ValidationError(isTeacher, f).None?
    requires '@' !in Trim(identifier) && Key(Some(identifier)) == Key(Some(f.username))
    ensures ResolveIdentifier(docs[UsernameDoc(Key(Some(f.username))) := MappingDoc(uid, isTeacher, f)], identifier, true)
            == Email(AccountEmail(isTeacher, f))
  {
    var m := MappingDoc(uid, isTeacher, f);
    MappingEmail(uid, isTeacher, f);
    var docs' := docs[UsernameDoc(Key(Some(f.username))) := m];
    UsernamePathUsesMapping(docs', identifier, true);
  }

  lemma MappingEmail(uid: string, isTeacher: bool, f: RegisterForm)
    ensures StrField(MappingDoc(uid, isTeacher, f), "email") == Some(AccountEmail(isTeacher, f))
    ensures StrField(ProfileDoc(uid, isTeacher, f), "role") == Some(RoleName(isTeacher))
  {
    assert "email" in MappingDoc(uid, isTeacher, f);
  }

  // ------------------------------------------------------------ the page

  class AuthManager {
    const db: Backend
    var User: Option<string>          // the signed-in user's uid
    var warningLoginText: string
    var confirmLoginText: string
    var warningRegisterText: string   // the student form's warning
    var TwarningRegisterText: string  // the teacher form's warning
    var loadedScene: Option<string>   // the last scene SceneManager.LoadScene was given

    constructor (db: Backend)
      ensures this.db == db && User.None? && loadedScene.None?
      ensures warningLoginText == confirmLoginText == warningRegisterText == TwarningRegisterText == ""
    {
      this.db := db;
      User := None;
      warningLoginText, confirmLoginText := "", "";
      warningRegisterText, TwarningRegisterText := "", "";
      loadedScene := None;
    }

    /** The warning label of the form being submitted. */
    function RegisterLabel(isTeacher: bool): string
      reads this
    {
      if isTeacher then TwarningRegisterText else warningRegisterText
    }

    /** The login coroutine: resolve the identifier, sign in, read the role, route. */
    method Login(identifier: string, password: string, lookupOk: bool, signIn: AuthOutcome, profileOk: bool)
      modifies this, db
      ensures db.docs == old(db.docs)
      ensures warningRegisterText == old(warningRegisterText) && TwarningRegisterText == old(TwarningRegisterText)
      ensures var lookup := old(db.log) + LookupCalls(identifier);
        match ResolveIdentifier(old(db.docs), identifier, lookupOk)
        case Warning(text) =>
          && warningLoginText == text && db.log == lookup
          && User == old(User) && confirmLoginText == old(confirmLoginText) && loadedScene == old(loadedScene)
        case Threw =>
          && db.log == lookup && warningLoginText == old(warningLoginText)
          && User == old(User) && confirmLoginText == old(confirmLoginText) && loadedScene == old(loadedScene)
        case Email(email) =>
          match signIn
          case Failed(ex) =>
            && warningLoginText == LoginErrorMessage(ex) && db.log == lookup + [Call.SignIn(email, password)]
            && User == old(User) && confirmLoginText == old(confirmLoginText) && loadedScene == old(loadedScene)
          case Succeeded(uid) =>
            && User == Some(uid) && warningLoginText == "" && confirmLoginText == "Logged In"
            && db.log == lookup + [Call.SignIn(email, password)] + [Call.Get(UserDoc(uid))]
            && var scene := ProfileScene(ReadAt(old(db.docs), UserDoc(uid), profileOk));
               loadedScene == if scene.Some? then scene else old(loadedScene)
    {
      var res := LookUp(identifier, lookupOk);
      if res.Warning? {
        warningLoginText := res.text;
        return;
      }
      if res.Threw? {
        return;  // GetValue<string> throws and the coroutine ends
      }
      SignInAndRoute(res.address, password, signIn, profileOk);
    }

    /** The sign-in and routing steps of the login coroutine. */
    method SignInAndRoute(email: string, password: string, signIn: AuthOutcome, profileOk: bool)
      modifies this, db
      ensures db.docs == old(db.docs)
      ensures warningRegisterText == old(warningRegisterText) && TwarningRegisterText == old(TwarningRegisterText)
      ensures match signIn
        case Failed(ex) =>
          && warningLoginText == LoginErrorMessage(ex) && db.log == old(db.log) + [Call.SignIn(email, password)]
          && User == old(User) && confirmLoginText == old(confirmLoginText) && loadedScene == old(loadedScene)
        case Succeeded(uid) =>
          && User == Some(uid) && warningLoginText == "" && confirmLoginText == "Logged In"
          && db.log == old(db.log) + [Call.SignIn(email, password)] + [Call.Get(UserDoc(uid))]
          && var scene := ProfileScene(ReadAt(old(db.docs), UserDoc(uid), profileOk));
             loadedScene == if scene.Some? then scene else old(loadedScene)
    {
      var result := db.SignIn(email, password, signIn);
      if result.Failed? {
        warningLoginText := LoginErrorMessage(result.error);
        return;
      }
      User := Some(result.uid);
      warningLoginText := "";
      confirmLoginText := "Logged In";
      var profile := db.Get(UserDoc(result.uid), profileOk);
      var scene := ProfileScene(profile);
      if scene.Some? {
        loadedScene := scene;
      }
    }

    /** The identifier step of the login coroutine. */
    method LookUp(identifier: string, lookupOk: bool) returns (res: Resolution)
      modifies db
      ensures res == ResolveIdentifier(old(db.docs), identifier, lookupOk)
      ensures db.docs == old(db.docs) && db.log == old(db.log) + LookupCalls(identifier)
    {
      var input := Trim(identifier);
      if '@' in input {
        return Email(input);
      }
      KeyIgnoresPadding(identifier);
      var snap := db.Get(UsernameDoc(Key(Some(input))), lookupOk);
      if snap.Faulted? {
        res := Warning("Network or permissions error.");
      } else if snap.Missing? {
        res := Warning("Username not found.");
      } else {
        var stored := StrField(snap.doc, "email");
        res := if stored.Some? then Email(stored.value) else Threw;
      }
    }

    /** The registration coroutine for the teacher form (`isTeacher`) or the student form.
        A faulted username check leaves the flow at `nameCheckTask.Result`, which throws. */
    method Register(isTeacher: bool, form: RegisterForm, nameCheckOk: bool, created: AuthOutcome,
                    profileOk: bool, mappingOk: bool)
      modifies this, db
      ensures User == old(User) && loadedScene == old(loadedScene)
      ensures warningLoginText == old(warningLoginText) && confirmLoginText == old(confirmLoginText)
      ensures RegisterLabel(!isTeacher) == old(RegisterLabel(!isTeacher))
      ensures var key := Key(Some(form.username));
              var email := AccountEmail(isTeacher, form);
        if ValidationError(isTeacher, form).Some? then
          && RegisterLabel(isTeacher) == ValidationError(isTeacher, form).value
          && db.docs == old(db.docs) && db.log == old(db.log)
        else if !nameCheckOk then
          && RegisterLabel(isTeacher) == old(RegisterLabel(isTeacher))
          && db.docs == old(db.docs) && db.log == old(db.log) + [Call.Get(UsernameDoc(key))]
        else if UsernameDoc(key) in old(db.docs) then
          && RegisterLabel(isTeacher) == "Username already taken"
          && db.docs == old(db.docs) && db.log == old(db.log) + [Call.Get(UsernameDoc(key))]
        else
          match created
          case Failed(ex) =>
            && RegisterLabel(isTeacher) == RegisterErrorMessage(ex)
            && db.docs == old(db.docs)
            && db.log == old(db.log) + [Call.Get(UsernameDoc(key))] + [Call.CreateUser(email, form.password)]
          case Succeeded(uid) =>
            && RegisterLabel(isTeacher) == ""
            && db.log == old(db.log) + [Call.Get(UsernameDoc(key))] + [Call.CreateUser(email, form.password)]
                          + [Call.UpdateDisplayName(uid, Trim(form.username))]
                          + [Call.Set(UserDoc(uid))] + [Call.Set(UsernameDoc(key))]
            && db.docs == AfterSet(AfterSet(old(db.docs), UserDoc(uid), ProfileDoc(uid, isTeacher, form), profileOk),
                                   UsernameDoc(key), MappingDoc(uid, isTeacher, form), mappingOk)
    {
      var key := Key(Some(form.username));
      var err := ValidationError(isTeacher, form);
      if err.Some? {
        SetRegisterLabel(isTeacher, err.value);
        return;
      }
      var taken := db.Get(UsernameDoc(key), nameCheckOk);
      if taken.Faulted? {
        return;  // reading the faulted task's Result throws and the coroutine ends
      }
      if taken.Found? {
        SetRegisterLabel(isTeacher, "Username already taken");
        return;
      }
      CreateAccount(isTeacher, form, created, profileOk, mappingOk);
    }

    /** The account-creation and profile-writing steps of the registration coroutine. */
    method CreateAccount(isTeacher: bool, form: RegisterForm, created: AuthOutcome, profileOk: bool, mappingOk: bool)
      modifies this, db
      ensures User == old(User) && loadedScene == old(loadedScene)
      ensures warningLoginText == old(warningLoginText) && confirmLoginText == old(confirmLoginText)
      ensures RegisterLabel(!isTeacher) == old(RegisterLabel(!isTeacher))
      ensures var key := Key(Some(form.username));
              var email := AccountEmail(isTeacher, form);
        match created
        case Failed(ex) =>
          && RegisterLabel(isTeacher) == RegisterErrorMessage(ex)
          && db.docs == old(db.docs)
          && db.log == old(db.log) + [Call.CreateUser(email, form.password)]
        case Succeeded(uid) =>
          && RegisterLabel(isTeacher) == ""
          && db.log == old(db.log) + [Call.CreateUser(email, form.password)]
                        + [Call.UpdateDisplayName(uid, Trim(form.username))]
                        + [Call.Set(UserDoc(uid))] + [Call.Set(UsernameDoc(key))]
          && db.docs == AfterSet(AfterSet(old(db.docs), UserDoc(uid), ProfileDoc(uid, isTeacher, form), profileOk),
                                 UsernameDoc(key), MappingDoc(uid, isTeacher, form), mappingOk)
    {
      var result := db.CreateUser(AccountEmail(isTeacher, form), form.password, created);
      if result.Failed? {
        SetRegisterLabel(isTeacher, RegisterErrorMessage(result.error));
        return;
      }
      var uid := result.uid;
      db.UpdateDisplayName(uid, Trim(form.username));
      var _ := db.Set(UserDoc(uid), ProfileDoc(uid, isTeacher, form), profileOk);
      var _ := db.Set(UsernameDoc(Key(Some(form.username))), MappingDoc(uid, isTeacher, form), mappingOk);
      SetRegisterLabel(isTeacher, "");
    }

    /** Writes the warning label of one form. */
    method SetRegisterLabel(isTeacher: bool, text: string)
      modifies this
      ensures RegisterLabel(isTeacher) == text && RegisterLabel(!isTeacher) == old(RegisterLabel(!isTeacher))
      ensures User == old(User) && loadedScene == old(loadedScene)
      ensures warningLoginText == old(warningLoginText) && confirmLoginText == old(confirmLoginText)
    {
      if isTeacher { TwarningRegisterText := text; } else { warningRegisterText := text; }
    }
  }
}
