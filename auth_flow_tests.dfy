/**
 * The test-side login reference (`TestableAuthManager.LoginFlow`) and the
 * in-memory doubles it runs over (`FakeFirestore`, `FakeAuth`).  The two
 * service interfaces are modelled as functions from a request to its answer,
 * so `LoginFlow` is stated for every service, and the fakes provide one such
 * answer function each from their dictionaries.
 */
module AuthFlowTests {
  import opened Wrappers
  import opened Text
  import LoginPage

  /** `GetUsernameMap`'s answer: whether the read went through, whether the key exists,
      and the mapped email, uid and role. */
  datatype MapAnswer = MapAnswer(ok: bool, found: bool, email: Option<string>, uid: Option<string>, role: Option<string>)

  /** `ReadUserDoc`'s answer. */
  datatype UserAnswer = UserAnswer(ok: bool, found: bool, role: Option<string>)

  /** `AuthResult`. */
  datatype AuthResult = AuthResult(ok: bool, uid: Option<string>, email: Option<string>, error: Option<string>)

  /** A user document field: a string, or an object of another type. */
  datatype Field = StringValue(s: string) | OtherValue

  /** A username mapping as the fake stores it. */
  datatype Mapping = Mapping(uid: string, email: string, role: string)

  /** The scene `LoginFlow` hands to `done` for a role it read. */
  function Route(role: Option<string>): (scene: string)
    ensures scene == "TeacherHome" <==> role == Some("teacher")
    ensures scene == "TeacherHome" || scene == "StudentCharacterSelect"
  {
    if role == Some("teacher") then "TeacherHome" else "StudentCharacterSelect"
  }

  /** The reference routes a teacher to a scene of another name than the login page does,
      and agrees with it for every other role. */
  lemma RouteNamesDiffer(role: string)
    ensures role == "teacher" ==> Route(Some(role)) != LoginPage.SceneForRole(role)
    ensures role != "teacher" ==> Route(Some(role)) == LoginPage.SceneForRole(role)
  {
  }

  // ------------------------------------------------------------ FakeFirestore

  /** The username dictionary compares keys ordinally ignoring case: keys are stored folded. */
  function Fold(key: string): string {
    ToLower(key)
  }

  /** `GetUsernameMap` over the fake's dictionary: the read always goes through. */
  function UsernameAnswer(usernames: map<string, Mapping>, key: string): (r: MapAnswer)
    ensures r.ok
    ensures r.found <==> Fold(key) in usernames
    ensures r.found ==> r.uid == Some(usernames[Fold(key)].uid) && r.email == Some(usernames[Fold(key)].email)
                         && r.role == Some(usernames[Fold(key)].role)
    ensures !r.found ==> r.uid.None? && r.email.None? && r.role.None?
  {
    if Fold(key) in usernames then
      var v := usernames[Fold(key)];
      MapAnswer(true, true, Some(v.email), Some(v.uid), Some(v.role))
    else
      MapAnswer(true, false, None, None, None)
  }

  /** Looking a username up in the fake ignores the case of the key. */
  lemma UsernameLookupIgnoresCase(usernames: map<string, Mapping>, key: string)
    ensures UsernameAnswer(usernames, ToLower(key)) == UsernameAnswer(usernames, key)
  {
    ToLowerIdempotent(key);
  }

  /** `ReadUserDoc` over the fake's documents: a document counts as existing only when it
      holds a "role" field, and a role that is not a string reads as null. */
  function UserDocAnswer(users: map<string, map<string, Field>>, uid: string): (r: UserAnswer)
    ensures r.ok
    ensures r.found <==> uid in users && "role" in users[uid]
    ensures r.role.Some? <==> r.found && users[uid]["role"].StringValue?
    ensures r.role.Some? ==> r.role.value == users[uid]["role"].s
  {
    if uid in users && "role" in users[uid] then
      var f := users[uid]["role"];
      UserAnswer(true, true, if f.StringValue? then Some(f.s) else None)
    else
      UserAnswer(true, false, None)
  }

  class FakeFirestore {
    var usernames: map<string, Mapping>
    var users: map<string, map<string, Field>>

    constructor ()
      ensures usernames == map[] && users == map[]
    {
      usernames, users := map[], map[];
    }

    /** `SeedUsername`: the entry under the key (in any casing) is replaced. */
    method SeedUsername(key: string, uid: string, email: string, role: string)
      modifies this
      ensures usernames == old(usernames)[Fold(key) := Mapping(uid, email, role)] && users == old(users)
    {
      usernames := usernames[Fold(key) := Mapping(uid, email, role)];
    }

    /** `SeedUser`: the document under the uid is replaced. */
    method SeedUser(uid: string, doc: map<string, Field>)
      modifies this
      ensures users == old(users)[uid := doc] && usernames == old(usernames)
    {
      users := users[uid := doc];
    }

    /** `WriteUsernameMap`: overwrites the entry and always reports success. */
    method WriteUsernameMap(key: string, uid: string, email: string, role: string) returns (ok: bool)
      modifies this
      ensures ok
      ensures usernames == old(usernames)[Fold(key) := Mapping(uid, email, role)] && users == old(users)
      ensures UsernameAnswer(usernames, key) == MapAnswer(true, true, Some(email), Some(uid), Some(role))
    {
      usernames := usernames[Fold(key) := Mapping(uid, email, role)];
      ok := true;
    }

    /** `WriteUserDoc`: overwrites the document and always reports success. */
    method WriteUserDoc(uid: string, doc: map<string, Field>) returns (ok: bool)
      modifies this
      ensures ok
      ensures users == old(users)[uid := doc] && usernames == old(usernames)
      ensures "role" in doc ==> UserDocAnswer(users, uid).found
    {
      users := users[uid := doc];
      ok := true;
    }
  }

  // ---------------------------------------------------------------- FakeAuth

  /** The fake's composite key: the trimmed, lower-cased email, a newline, the password
      (a null email or password counts as empty). */
  function SignInKey(email: string, password: string): (k: string)
    ensures |k| == |Trim(email)| + 1 + |password|
    ensures k[..|Trim(email)|] == ToLower(Trim(email))
    ensures k[|Trim(email)|] == '\n' && k[|Trim(email)| + 1..] == password
  {
    ToLower(Trim(email)) + "\n" + password
  }

  /** The composite key loses nothing but case and padding: for emails with no inner newline,
      two pairs share a key exactly when their normalised emails and their passwords agree. */
  lemma {:induction false} SignInKeyInjective(e1: string, p1: string, e2: string, p2: string)
    requires '\n' !in Trim(e1) && '\n' !in Trim(e2)
    ensures SignInKey(e1, p1) == SignInKey(e2, p2) <==> ToLower(Trim(e1)) == ToLower(Trim(e2)) && p1 == p2
  {
    var a1, a2 := ToLower(Trim(e1)), ToLower(Trim(e2));
    if SignInKey(e1, p1) == SignInKey(e2, p2) {
      var k := SignInKey(e1, p1);
      assert k == a1 + "\n" + p1 && k == a2 + "\n" + p2;
      if |a1| < |a2| {
        assert false;
      } else if |a2| < |a1| {
        assert false;
      }
      assert a1 == k[..|a1|] == a2;
      assert p1 == k[|a1| + 1..] == p2;
    }
  }

  /** `SignIn` over the fake's dictionary, whose comparer ignores case over the whole
      composite key: only a seeded, successful pair signs in. */
  function SignInAnswer(signIns: map<string, (bool, string)>, email: Option<string>, password: string): (r: AuthResult)
    ensures r.ok <==> Fold(SignInKey(email.GetOr(""), password)) in signIns && signIns[Fold(SignInKey(email.GetOr(""), password))].0
    ensures r.ok ==> r.uid == Some(signIns[Fold(SignInKey(email.GetOr(""), password))].1) && r.email == email
    ensures !r.ok ==> r.error == Some("Wrong Password")
  {
    var k := Fold(SignInKey(email.GetOr(""), password));
    if k in signIns && signIns[k].0 then AuthResult(true, Some(signIns[k].1), email, None)
    else AuthResult(false, None, None, Some("Wrong Password"))
  }

  /** Because the comparer ignores case over the whole key, the fake accepts a password in
      any letter case, and an email with any padding or casing. */
  lemma {:induction false} FakeSignInIgnoresCase(signIns: map<string, (bool, string)>, email: string, password: string)
    ensures SignInAnswer(signIns, Some(email), ToLower(password)) == SignInAnswer(signIns, Some(email), password)
    ensures SignInAnswer(signIns, Some(ToLower(Trim(email))), password).ok == SignInAnswer(signIns, Some(email), password).ok
  {
    var e := ToLower(Trim(email));
    ToLowerConcat(e + "\n", ToLower(password));
    ToLowerConcat(e + "\n", password);
    ToLowerIdempotent(password);
    LoginPage.KeyIgnoresCase(email);
    LoginPage.KeyIgnoresPadding(email);
    TrimOfLowered(email);
  }

  lemma {:induction false} ToLowerConcat(a: string, b: string)
    ensures ToLower(a + b) == ToLower(a) + ToLower(b)
  {
    assert |ToLower(a + b)| == |a + b|;
    forall i | 0 <= i < |a + b| ensures ToLower(a + b)[i] == (ToLower(a) + ToLower(b))[i] {
      if i < |a| {
        assert (a + b)[i] == a[i];
      } else {
        assert (a + b)[i] == b[i - |a|];
      }
    }
  }

  /** The trimmed, lower-cased email is left alone by trimming and lower-casing again. */
  lemma TrimOfLowered(email: string)
    ensures ToLower(Trim(ToLower(Trim(email)))) == ToLower(Trim(email))
  {
    ToLowerKeepsTrimmed(Trim(email));
    TrimOfTrimmed(ToLower(Trim(email)));
    ToLowerIdempotent(Trim(email));
  }

  class FakeAuth {
    var signIns: map<string, (bool, string)>

    constructor ()
      ensures signIns == map[]
    {
      signIns := map[];
    }

    /** `SeedSignIn`: the outcome under the composite key (in any casing) is replaced. */
    method SeedSignIn(email: string, password: string, ok: bool, uid: string)
      modifies this
      ensures signIns == old(signIns)[Fold(SignInKey(email, password)) := (ok, uid)]
    {
      var k := Fold(SignInKey(email, password));
      signIns := signIns[k := (ok, uid)];
    }

    /** `CreateUser` always succeeds, with a fresh uid given as `guid`. */
    method CreateUser(email: Option<string>, password: string, guid: string) returns (r: AuthResult)
      ensures r == AuthResult(true, Some(guid), email, None)
    {
      r := AuthResult(true, Some(guid), email, None);
    }

    /** `UpdateDisplayName` always succeeds. */
    method UpdateDisplayName(uid: string, displayName: string) returns (ok: bool)
      ensures ok
    {
      ok := true;
    }
  }

  // ------------------------------------------------------- TestableAuthManager

  class TestableAuthManager {
    var warningLoginText: string
    var confirmLoginText: string

    constructor ()
      ensures warningLoginText == "" && confirmLoginText == ""
    {
      warningLoginText, confirmLoginText := "", "";
    }

    /** The username half of `LoginFlow` on the trimmed input: an input with '@' is the
        email; otherwise the normalised key is looked up, and an unreadable or missing
        mapping stops the flow with its warning. */
    method ResolveInput(input: string, getUsernameMap: string -> MapAnswer)
      returns (proceed: bool, email: Option<string>, uidFromMap: Option<string>)
      modifies this
      ensures confirmLoginText == old(confirmLoginText)
      ensures '@' in input ==> proceed && email == Some(input) && uidFromMap.None? && warningLoginText == old(warningLoginText)
      ensures '@' !in input ==>
        var m := getUsernameMap(LoginPage.Key(Some(input)));
        && (!m.ok ==> !proceed && warningLoginText == "Network or permissions error.")
        && (m.ok && !m.found ==> !proceed && warningLoginText == "Username not found.")
        && (m.ok && m.found ==> proceed && email == m.email && uidFromMap == m.uid && warningLoginText == old(warningLoginText))
    {
      email, uidFromMap := Some(input), None;
      if '@' !in input {
        var key := LoginPage.Key(Some(input));
        var res := getUsernameMap(key);
        if !res.ok {
          warningLoginText := "Network or permissions error.";
          return false, email, uidFromMap;
        }
        if !res.found {
          warningLoginText := "Username not found.";
          return false, email, uidFromMap;
        }
        email := res.email;
        uidFromMap := res.uid;
      }
      proceed := true;
    }

    /** `LoginFlow`: an identifier without '@' is a username resolved through the mapping
        (an unreadable mapping and a missing one each end with their own warning); the
        email then signs in; a signed-in user is routed by the role of the uid the mapping
        named, or else the uid the sign-in returned.  `next` is the scene passed to `done`. */
    method LoginFlow(identifier: string, pw: string,
                     getUsernameMap: string -> MapAnswer,
                     signIn: (Option<string>, string) -> AuthResult,
                     readUserDoc: string -> UserAnswer)
      returns (next: Option<string>)
      modifies this
      ensures var input := Trim(identifier);
        var isUsername := '@' !in input;
        var m := getUsernameMap(LoginPage.Key(Some(input)));
        var resolved := !isUsername || (m.ok && m.found);
        var email := if isUsername then m.email else Some(input);
        var ar := signIn(email, pw);
        && (isUsername && !m.ok ==>
              next.None? && warningLoginText == "Network or permissions error." && confirmLoginText == old(confirmLoginText))
        && (isUsername && m.ok && !m.found ==>
              next.None? && warningLoginText == "Username not found." && confirmLoginText == old(confirmLoginText))
        && (resolved && !ar.ok ==>
              next.None? && warningLoginText == ar.error.GetOr("Login Failed!") && confirmLoginText == old(confirmLoginText))
        && (resolved && ar.ok ==>
              var uid := if isUsername && m.uid.Some? then m.uid else ar.uid;
              var rd := readUserDoc(uid.GetOr(""));
              && confirmLoginText == "Logged In" && warningLoginText == old(warningLoginText)
              && (uid.Some? && rd.ok && rd.found ==> next == Some(Route(rd.role)))
              && (uid.Some? && !(rd.ok && rd.found) ==> next.None?)
              && (uid.None? ==> next.None?))
      ensures next.Some? ==> confirmLoginText == "Logged In"
    {
      var input := Trim(identifier);
      var proceed, email, uidFromMap := ResolveInput(input, getUsernameMap);
      if !proceed {
        return None;
      }
      next := SignInAndRoute(email, uidFromMap, pw, signIn, readUserDoc);
    }

    /** The second half of `LoginFlow`: sign in, then route by the remembered uid's role. */
    method SignInAndRoute(email: Option<string>, uidFromMap: Option<string>, pw: string,
                          signIn: (Option<string>, string) -> AuthResult,
                          readUserDoc: string -> UserAnswer)
      returns (next: Option<string>)
      modifies this
      ensures var ar := signIn(email, pw);
        && (!ar.ok ==>
              next.None? && warningLoginText == ar.error.GetOr("Login Failed!") && confirmLoginText == old(confirmLoginText))
        && (ar.ok ==>
              var uid := if uidFromMap.Some? then uidFromMap else ar.uid;
              var rd := readUserDoc(uid.GetOr(""));
              && confirmLoginText == "Logged In" && warningLoginText == old(warningLoginText)
              && (uid.Some? && rd.ok && rd.found ==> next == Some(Route(rd.role)))
              && (uid.Some? && !(rd.ok && rd.found) ==> next.None?)
              && (uid.None? ==> next.None?))
    {
      var ar := signIn(email, pw);
      if !ar.ok {
        warningLoginText := ar.error.GetOr("Login Failed!");
        return None;
      }
      confirmLoginText := "Logged In";
      var uid := if uidFromMap.Some? then uidFromMap else ar.uid;
      if uid.None? {
        return None;
      }
      var rd := readUserDoc(uid.value);
      if !rd.ok || !rd.found {
        return None;
      }
      next := Some(Route(rd.role));
    }
  }

  // ------------------------------------------------------------- the scenarios
  // Each test is stated for every input of its shape; the literals the test uses are
  // shown to have that shape by `TeacherInput`, `StudentInput`, `LowerInput` and `SeededKeysHaveNoAt`.

  /** Trimming never brings in an '@'. */
  lemma NoAtInTrim(s: string)
    requires '@' !in s
    ensures '@' !in Trim(s)
  {
    TrimIsInfix(s);
    var i, j :| 0 <= i <= j <= |s| && Trim(s) == s[i..j];
    forall k | 0 <= k < |Trim(s)| ensures Trim(s)[k] != '@' {
      assert Trim(s)[k] == s[i + k];
    }
  }

  /** An identifier whose key has no '@' is taken for a username. */
  lemma NoAtInKeyedInput(s: string)
    requires '@' !in LoginPage.Key(Some(s))
    ensures '@' !in Trim(s)
  {
    if IsNullOrWhiteSpace(Some(s)) {
      TrimEmptyIff(s);
    } else {
      forall k | 0 <= k < |Trim(s)| ensures Trim(s)[k] != '@' {
        assert LoginPage.Key(Some(s))[k] == LowerChar(Trim(s)[k]);
      }
    }
  }

  /** Lower-casing a normalised key changes nothing. */
  lemma FoldOfKey(s: string)
    ensures Fold(LoginPage.Key(Some(s))) == LoginPage.Key(Some(s))
  {
    if !IsNullOrWhiteSpace(Some(s)) {
      ToLowerIdempotent(Trim(s));
    }
  }

  /** A username whose seeded key has no '@' is looked up under its folded key. */
  lemma {:induction false} SeededKeyHasNoAt(identifier: string, key: string)
    requires LoginPage.Key(Some(identifier)) == Fold(key) && '@' !in key
    ensures '@' !in Trim(identifier)
  {
    forall k | 0 <= k < |Fold(key)| ensures Fold(key)[k] != '@' {
      assert Fold(key)[k] == LowerChar(key[k]);
    }
    NoAtInKeyedInput(identifier);
  }

  /** The seeded keys hold no '@'. */
  lemma SeededKeysHaveNoAt()
    ensures '@' !in "mrsmith" && '@' !in "alice"
  {
  }

  /** "MrSmith" normalises to the teacher test's seeded key. */
  lemma TeacherInput()
    ensures LoginPage.Key(Some("MrSmith")) == Fold("mrsmith")
  {
    assert "MrSmith" == "" + "MrSmith" + "";
    LoginPage.PaddedExample("", "MrSmith", "", "mrsmith");
    FoldOfKey("MrSmith");
  }

  /** "  ALICE " normalises to the student test's seeded key. */
  lemma StudentInput()
    ensures LoginPage.Key(Some("  ALICE ")) == Fold("alice")
  {
    assert "  ALICE " == "  " + "ALICE" + " ";
    LoginPage.PaddedExample("  ", "ALICE", " ", "alice");
    FoldOfKey("  ALICE ");
  }

  /** "alice" is its own key. */
  lemma LowerInput()
    ensures LoginPage.Key(Some("alice")) == Fold("alice")
  {
    assert "alice" == "" + "alice" + "";
    LoginPage.PaddedExample("", "alice", "", "alice");
    FoldOfKey("alice");
  }

  /** `UsernameNotFound_ShowsWarning`: with nothing seeded, a username login warns and
      routes nowhere. */
  method UsernameNotFoundShowsWarning(identifier: string, pw: string) returns (next: Option<string>, warning: string)
    requires '@' !in identifier
    ensures next.None? && warning == "Username not found."
  {
    var fs := new FakeFirestore();
    var auth := new FakeAuth();
    var mgr := new TestableAuthManager();
    var usernames, users, signIns := fs.usernames, fs.users, auth.signIns;
    NoAtInTrim(identifier);
    next := mgr.LoginFlow(identifier, pw, k => UsernameAnswer(usernames, k),
                          (e, p) => SignInAnswer(signIns, e, p), u => UserDocAnswer(users, u));
    warning := mgr.warningLoginText;
  }

  /** A username login against a seeded mapping, user document and sign-in: an identifier
      that normalises to the seeded key signs in with the mapped email and is routed by the
      seeded role. */
  method SeededUsernameLogin(identifier: string, key: string, uid: string, email: string, pw: string, role: string)
    returns (next: Option<string>, confirm: string)
    requires LoginPage.Key(Some(identifier)) == Fold(key) && '@' !in key
    ensures next == Some(Route(Some(role))) && confirm == "Logged In"
  {
    var fs := new FakeFirestore();
    var auth := new FakeAuth();
    fs.SeedUsername(key, uid, email, role);
    fs.SeedUser(uid, map["role" := StringValue(role)]);
    auth.SeedSignIn(email, pw, true, uid);
    var mgr := new TestableAuthManager();
    var usernames, users, signIns := fs.usernames, fs.users, auth.signIns;
    SeededKeyHasNoAt(identifier, key);
    SeededAnswers(identifier, key, uid, email, pw, role);
    next := mgr.LoginFlow(identifier, pw, k => UsernameAnswer(usernames, k),
                          (e, p) => SignInAnswer(signIns, e, p), u => UserDocAnswer(users, u));
    confirm := mgr.confirmLoginText;
  }

  /** What the fakes answer once a mapping, a user document and a sign-in are seeded. */
  lemma SeededAnswers(identifier: string, key: string, uid: string, email: string, pw: string, role: string)
    requires LoginPage.Key(Some(identifier)) == Fold(key)
    ensures UsernameAnswer(map[Fold(key) := Mapping(uid, email, role)], LoginPage.Key(Some(Trim(identifier))))
            == MapAnswer(true, true, Some(email), Some(uid), Some(role))
    ensures SignInAnswer(map[Fold(SignInKey(email, pw)) := (true, uid)], Some(email), pw)
            == AuthResult(true, Some(uid), Some(email), None)
    ensures UserDocAnswer(map[uid := map["role" := StringValue(role)]], uid) == UserAnswer(true, true, Some(role))
  {
    LoginPage.KeyIgnoresPadding(identifier);
    FoldOfKey(identifier);
  }

  /** `WrongPassword_Shows_WrongPassword_Message`: the mapping exists but no sign-in was
      seeded, so the fake's "Wrong Password" is shown and nothing is routed. */
  method WrongPasswordShowsWrongPasswordMessage(identifier: string, key: string, uid: string, email: string,
                                                role: string, pw: string)
    returns (next: Option<string>, warning: string)
    requires LoginPage.Key(Some(identifier)) == Fold(key) && '@' !in key
    ensures next.None? && warning == "Wrong Password"
  {
    var fs := new FakeFirestore();
    var auth := new FakeAuth();
    fs.SeedUsername(key, uid, email, role);
    fs.SeedUser(uid, map["role" := StringValue(role)]);
    var mgr := new TestableAuthManager();
    var usernames, users, signIns := fs.usernames, fs.users, auth.signIns;
    SeededKeyHasNoAt(identifier, key);
    LoginPage.KeyIgnoresPadding(identifier);
    FoldOfKey(identifier);
    next := mgr.LoginFlow(identifier, pw, k => UsernameAnswer(usernames, k),
                          (e, p) => SignInAnswer(signIns, e, p), u => UserDocAnswer(users, u));
    warning := mgr.warningLoginText;
  }

  /** The four tests with their own inputs. */
  method UsernameNotFoundTest() returns (warning: string)
    ensures warning == "Username not found."
  {
    assert "missingUser"[0] != '@';
    var next;
    next, warning := UsernameNotFoundShowsWarning("missingUser", "pw");
  }

  method TeacherRoutingTest() returns (next: Option<string>, confirm: string)
    ensures next == Some("TeacherHome")
    ensures confirm == "Logged In"
  {
    TeacherInput();
    SeededKeysHaveNoAt();
    next, confirm := SeededUsernameLogin("MrSmith", "mrsmith", "UID_T", "smith@school.tld", "secret", "teacher");
  }

  method StudentRoutingTest() returns (next: Option<string>, confirm: string)
    ensures next == Some("StudentCharacterSelect")
    ensures confirm == "Logged In"
  {
    StudentInput();
    SeededKeysHaveNoAt();
    next, confirm := SeededUsernameLogin("  ALICE ", "alice", "UID_S", "alice@students.example", "pw", "student");
  }

  method WrongPasswordTest() returns (warning: string)
    ensures warning == "Wrong Password"
  {
    LowerInput();
    SeededKeysHaveNoAt();
    var next;
    next, warning := WrongPasswordShowsWrongPasswordMessage("alice", "alice", "UID_S", "alice@students.example", "student", "badpw");
  }
}
