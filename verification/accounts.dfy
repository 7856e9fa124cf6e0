/**
 User accounts: registration, login gating, confirmation of the account and of an email change,
 password reset, profile and password updates, deletion. Hashing, token generation, JWT signing
 and email delivery are not part of this model: a hash or a fresh token is a parameter, the
 password check is a predicate parameter, and time is an integer number of milliseconds.
 */
module Accounts {
  import opened Wrappers
  import opened Text
  import opened Tables
  import Reviews

  /** A user row; the nullable columns are options. `password` holds the hash. */
  datatype User = User(
    nomeCompleto: Option<string>, username: string, email: string, password: string, enabled: bool,
    confirmationToken: Option<string>, emailChangeToken: Option<string>, unconfirmedEmail: Option<string>,
    resetToken: Option<string>, resetExpiry: Option<int>)

  /** A user as the API returns it: every column except the password hash. */
  datatype SafeUser = SafeUser(
    nomeCompleto: Option<string>, username: string, email: string, enabled: bool,
    confirmationToken: Option<string>, emailChangeToken: Option<string>, unconfirmedEmail: Option<string>,
    resetToken: Option<string>, resetExpiry: Option<int>)

  /** The name filters: profanity and emoji detection. */
  datatype NameFilters = NameFilters(profane: string -> bool, emoji: string -> bool)

  /** A registration request. */
  datatype Signup = Signup(nomeCompleto: Option<string>, username: string, email: string)

  /** A profile edit; `None` for an absent field. */
  datatype ProfileEdit = ProfileEdit(nomeCompleto: Option<string>, username: Option<string>, email: Option<string>)

  const ProfaneUsername := "Você utilizou palavras inapropriadas no nome de usuário."
  const EmojiUsername := "O nome de usuário não pode conter emojis."
  const UsernameTaken := "Usuário já cadastrado, use outro e tente novamente."
  const EmailTaken := "Email já cadastrado, use outro e tente novamente."
  const BadCredentials := "Usuário ou senha inválidos"
  const NotVerified := "Sua conta ainda não foi verificada. Por favor, verifique seu e-mail."
  const BadConfirmation := "Token de confirmação inválido ou não encontrado."
  const BadEmailChange := "Token de alteração de e-mail inválido ou não encontrado."
  const BadReset := "Token de redefinição de senha inválido ou expirado."
  const UserNotFound := "Usuário não encontrado."
  const Profanity := "Você utilizou palavras inapropriadas."
  const NewUsernameTaken := "O novo nome de usuário já está em uso."
  const NewEmailTaken := "O novo e-mail já está em uso por outra conta."
  const WrongPassword := "A senha atual está incorreta."

  /** The reset token lifetime: one hour. */
  const ResetLifetime := 3_600_000

  /** The user without the password hash. */
  function Safe(u: User): (s: SafeUser)
    ensures s.username == u.username && s.email == u.email && s.enabled == u.enabled
  {
    SafeUser(u.nomeCompleto, u.username, u.email, u.enabled, u.confirmationToken, u.emailChangeToken,
             u.unconfirmedEmail, u.resetToken, u.resetExpiry)
  }

  /** What the API returns about a user does not depend on the password hash. */
  lemma SafeHidesPassword(u: User, other: string)
    ensures Safe(u) == Safe(u.(password := other))
  {
  }

  /** No enabled user holds the username. */
  predicate UsernameFree(t: Table<User>, name: string) {
    forall k :: k in t.rows && t.rows[k].enabled ==> t.rows[k].username != name
  }

  /** `k` is the lowest id whose row has this email: the row `findOne({ where: { email } })` returns. */
  predicate FirstHolder(t: Table<User>, email: string, k: nat) {
    k in t.rows && t.rows[k].email == email && forall j :: j in t.rows && j < k ==> t.rows[j].email != email
  }

  /** An email has at most one first holder. */
  lemma FirstHolderUnique(t: Table<User>, email: string, a: nat, b: nat)
    requires FirstHolder(t, email, a) && FirstHolder(t, email, b)
    ensures a == b
  {
  }

  /** The email's first holder, if any, is not enabled. */
  predicate EmailReusable(t: Table<User>, email: string) {
    forall k :: k in t.rows && FirstHolder(t, email, k) ==> !t.rows[k].enabled
  }

  /**
   `cadastrarUsuario`: a profane or emoji username fails, as does a username held by an enabled
   user or an email held by an enabled user; a disabled account holding the email is deleted
   first. The new user is disabled and holds the fresh confirmation token.
   */
  function Register(t: Table<User>, d: Signup, hashed: string, token: string, f: NameFilters): (r: (Table<User>, Result<SafeUser>))
    ensures r.1.Err? ==> r.0 == t
    ensures f.profane(d.username) ==> r.1 == Err(ProfaneUsername)
    ensures !f.profane(d.username) && f.emoji(d.username) ==> r.1 == Err(EmojiUsername)
    ensures !f.profane(d.username) && !f.emoji(d.username) ==>
      ((exists k :: k in t.rows && t.rows[k].username == d.username && t.rows[k].enabled) <==> r.1 == Err(UsernameTaken))
    // past the username checks, the email's first holder decides
    ensures !f.profane(d.username) && !f.emoji(d.username) && UsernameFree(t, d.username) ==>
      (EmailReusable(t, d.email) <==> r.1.Ok?) && (!EmailReusable(t, d.email) <==> r.1 == Err(EmailTaken))
    // a disabled first holder of the email is deleted to make room
    ensures r.1.Ok? ==> forall k :: FirstHolder(t, d.email, k) ==> k !in r.0.rows
    ensures r.1.Ok? ==>
      && (forall k :: k in t.rows && t.rows[k].enabled ==> t.rows[k].username != d.username)
      // only the first holder of the email is looked at
      && (forall k :: k in t.rows && t.rows[k].enabled && t.rows[k].email == d.email ==>
            exists j :: j in t.rows && j < k && t.rows[j].email == d.email)
      && t.next in r.0.rows && r.0.rows[t.next] == User(d.nomeCompleto, d.username, d.email, hashed, false, Some(token), None, None, None, None)
      && r.1.value == Safe(r.0.rows[t.next])
      && r.0.rows.Keys <= t.rows.Keys + {t.next}
      && (forall k :: k in t.rows && k in r.0.rows ==> r.0.rows[k] == t.rows[k])
      && (forall k :: k in t.rows && k !in r.0.rows ==> t.rows[k].email == d.email && !t.rows[k].enabled)
  {
    if f.profane(d.username) then (t, Err(ProfaneUsername))
    else if f.emoji(d.username) then (t, Err(EmojiUsername))
    else if FindOne(t, (u: User) => u.username == d.username && u.enabled).Some? then (t, Err(UsernameTaken))
    else Enroll(t, d, hashed, token)
  }

  /**
   The email half of `cadastrarUsuario`: an enabled first holder of the email refuses the
   registration; a disabled one is deleted; the new user is inserted disabled with its token.
   */
  function Enroll(t: Table<User>, d: Signup, hashed: string, token: string): (r: (Table<User>, Result<SafeUser>))
    ensures r.1.Err? ==> r.0 == t
    ensures (EmailReusable(t, d.email) <==> r.1.Ok?) && (!EmailReusable(t, d.email) <==> r.1 == Err(EmailTaken))
    ensures r.1.Ok? ==> forall k :: FirstHolder(t, d.email, k) ==> k !in r.0.rows
    ensures r.1.Ok? ==>
      && (forall k :: k in t.rows && t.rows[k].enabled && t.rows[k].email == d.email ==>
            exists j :: j in t.rows && j < k && t.rows[j].email == d.email)
      && t.next in r.0.rows && r.0.rows[t.next] == User(d.nomeCompleto, d.username, d.email, hashed, false, Some(token), None, None, None, None)
      && r.1.value == Safe(r.0.rows[t.next])
      && r.0.rows.Keys <= t.rows.Keys + {t.next}
      && (forall k :: k in t.rows && k in r.0.rows ==> r.0.rows[k] == t.rows[k])
      && (forall k :: k in t.rows && k !in r.0.rows ==> t.rows[k].email == d.email && !t.rows[k].enabled)
  {
    var holder := FindOne(t, (u: User) => u.email == d.email);
    assert holder.Some? ==> FirstHolder(t, d.email, holder.value);
    assert forall k: nat :: FirstHolder(t, d.email, k) ==> holder == Some(k) by {
      forall k: nat | FirstHolder(t, d.email, k) ensures holder == Some(k) {
        if holder.Some? { FirstHolderUnique(t, d.email, k, holder.value); }
      }
    }
    if holder.Some? && t.rows[holder.value].enabled then (t, Err(EmailTaken))
    else
      var t1 := if holder.Some? then Delete(t, holder.value) else t;
      var created := User(d.nomeCompleto, d.username, d.email, hashed, false, Some(token), None, None, None, None);
      var (t2, id) := Insert(t1, created);
      (t2, Ok(Safe(created)))
  }

  /** When no two accounts share an email, a registration never succeeds over an enabled holder of its email. */
  lemma RegisterRespectsEnabledEmail(t: Table<User>, d: Signup, hashed: string, token: string, f: NameFilters)
    requires forall a, b :: a in t.rows && b in t.rows && t.rows[a].email == t.rows[b].email ==> a == b
    requires Register(t, d, hashed, token, f).1.Ok?
    ensures forall k :: k in t.rows && t.rows[k].email == d.email ==> !t.rows[k].enabled
  {
  }

  /** `k` is the lowest id whose username or email is `name`. */
  predicate FirstNamed(t: Table<User>, name: string, k: nat) {
    && k in t.rows && (t.rows[k].username == name || t.rows[k].email == name)
    && forall j :: j in t.rows && j < k ==> t.rows[j].username != name && t.rows[j].email != name
  }

  /**
   `login` by username or email: an unknown user and a wrong password fail with the same message,
   and an unverified account fails before its password is checked.
   */
  function Login(t: Table<User>, name: string, pass: string, matches: (string, string) -> bool): (r: Result<SafeUser>)
    ensures (forall k :: k in t.rows ==> t.rows[k].username != name && t.rows[k].email != name) ==> r == Err(BadCredentials)
    ensures r.Ok? ==>
      exists k :: && k in t.rows && (t.rows[k].username == name || t.rows[k].email == name)
                  && t.rows[k].enabled && matches(pass, t.rows[k].password) && r.value == Safe(t.rows[k])
    ensures r.Err? ==> r.message in {BadCredentials, NotVerified}
    // the first account with that username or email decides
    ensures forall k :: FirstNamed(t, name, k) ==>
      && (!t.rows[k].enabled ==> r == Err(NotVerified))
      && (t.rows[k].enabled && !matches(pass, t.rows[k].password) ==> r == Err(BadCredentials))
      && (t.rows[k].enabled && matches(pass, t.rows[k].password) ==> r == Ok(Safe(t.rows[k])))
  {
    match FindOne(t, (u: User) => u.username == name || u.email == name)
    case None => Err(BadCredentials)
    case Some(k) =>
      if !t.rows[k].enabled then Err(NotVerified)
      else if !matches(pass, t.rows[k].password) then Err(BadCredentials)
      else Ok(Safe(t.rows[k]))
  }

  /** The outcome of a login does not depend on the password check when the account is unverified. */
  lemma LoginChecksVerificationFirst(t: Table<User>, name: string, pass: string, m1: (string, string) -> bool, m2: (string, string) -> bool)
    requires FindOne(t, (u: User) => u.username == name || u.email == name).Some?
    requires !t.rows[FindOne(t, (u: User) => u.username == name || u.email == name).value].enabled
    ensures Login(t, name, pass, m1) == Login(t, name, pass, m2) == Err(NotVerified)
  {
  }

  /** `confirmUserAccount`: the token's holder is enabled and the token cleared. */
  function ConfirmAccount(t: Table<User>, token: string): (r: (Table<User>, Result<nat>))
    ensures r.1.Err? ==> r.0 == t && r.1.message == BadConfirmation
    ensures r.1.Err? <==> forall k :: k in t.rows ==> t.rows[k].confirmationToken != Some(token)
    ensures r.1.Ok? ==>
      var k := r.1.value;
      && k in t.rows && t.rows[k].confirmationToken == Some(token)
      && r.0.rows == t.rows[k := t.rows[k].(enabled := true, confirmationToken := None)]
  {
    match FindOne(t, (u: User) => u.confirmationToken == Some(token))
    case None => (t, Err(BadConfirmation))
    case Some(k) => (Put(t, k, t.rows[k].(enabled := true, confirmationToken := None)), Ok(k))
  }

  /** `confirmEmailChange`: the staged address becomes the email and both pending fields are cleared. */
  function ConfirmEmailChange(t: Table<User>, token: string): (r: (Table<User>, Result<nat>))
    ensures r.1.Err? ==> r.0 == t && r.1.message == BadEmailChange
    ensures r.1.Ok? ==>
      var k := r.1.value;
      && k in t.rows && t.rows[k].emailChangeToken == Some(token) && Filled(t.rows[k].unconfirmedEmail)
      && r.0.rows == t.rows[k := t.rows[k].(email := t.rows[k].unconfirmedEmail.value, unconfirmedEmail := None, emailChangeToken := None)]
    ensures (forall k :: k in t.rows ==> t.rows[k].emailChangeToken != Some(token)) ==> r.1.Err?
  {
    match FindOne(t, (u: User) => u.emailChangeToken == Some(token))
    case None => (t, Err(BadEmailChange))
    case Some(k) =>
      var u := t.rows[k];
      if !Filled(u.unconfirmedEmail) then (t, Err(BadEmailChange))
      else (Put(t, k, u.(email := u.unconfirmedEmail.value, unconfirmedEmail := None, emailChangeToken := None)), Ok(k))
  }

  /** `forgotPassword`: silent for an unknown email; otherwise a fresh token valid for one hour. */
  function ForgotPassword(t: Table<User>, email: string, token: string, now: int): (r: Table<User>)
    ensures (forall k :: k in t.rows ==> t.rows[k].email != email) ==> r == t
    ensures (exists k :: k in t.rows && t.rows[k].email == email) ==>
      exists k :: k in t.rows && t.rows[k].email == email
        && r.rows == t.rows[k := t.rows[k].(resetToken := Some(token), resetExpiry := Some(now + ResetLifetime))]
  {
    match FindOne(t, (u: User) => u.email == email)
    case None => t
    case Some(k) => Put(t, k, t.rows[k].(resetToken := Some(token), resetExpiry := Some(now + ResetLifetime)))
  }

  /** A reset token is live for a user while its expiry is after `now`. */
  predicate ResetLive(u: User, token: string, now: int) {
    u.resetToken == Some(token) && u.resetExpiry.Some? && u.resetExpiry.value > now
  }

  /** `resetPassword`: the holder of a live token gets the new hash; token and expiry are cleared. */
  function ResetPassword(t: Table<User>, token: string, hashed: string, now: int): (r: (Table<User>, Result<nat>))
    ensures r.1.Err? <==> forall k :: k in t.rows ==> !ResetLive(t.rows[k], token, now)
    ensures r.1.Err? ==> r.0 == t && r.1.message == BadReset
    ensures r.1.Ok? ==>
      var k := r.1.value;
      && k in t.rows && ResetLive(t.rows[k], token, now)
      && r.0.rows == t.rows[k := t.rows[k].(password := hashed, resetToken := None, resetExpiry := None)]
  {
    match FindOne(t, (u: User) => ResetLive(u, token, now))
    case None => (t, Err(BadReset))
    case Some(k) => (Put(t, k, t.rows[k].(password := hashed, resetToken := None, resetExpiry := None)), Ok(k))
  }

  /**
   A fresh token sent by `forgotPassword` resets that user's password exactly when it is used
   within the hour, and only once.
   */
  lemma ForgotThenReset(t: Table<User>, email: string, token: string, now: int, later: int, hashed: string)
    requires exists k :: k in t.rows && t.rows[k].email == email
    requires forall k :: k in t.rows ==> t.rows[k].resetToken != Some(token)
    ensures var t1 := ForgotPassword(t, email, token, now);
      var (t2, r) := ResetPassword(t1, token, hashed, later);
      && (r.Ok? <==> later < now + ResetLifetime)
      && (r.Ok? ==> t.rows[r.value].email == email && t2.rows[r.value].password == hashed
                    && ResetPassword(t2, token, hashed, later).1.Err?)
  {
    var t1 := ForgotPassword(t, email, token, now);
    var k :| k in t.rows && t.rows[k].email == email
      && t1.rows == t.rows[k := t.rows[k].(resetToken := Some(token), resetExpiry := Some(now + ResetLifetime))];
    assert forall j :: j in t1.rows && t1.rows[j].resetToken == Some(token) ==> j == k;
    if later < now + ResetLifetime {
      assert ResetLive(t1.rows[k], token, later);
    }
  }

  /** `data.email.toLowerCase() !== usuario.email`: only the submitted side is lower-cased. */
  predicate EmailDiffers(submitted: string, stored: string) {
    Lower(submitted) != stored
  }

  /** The edit changes the username. */
  predicate Renames(u: User, d: ProfileEdit) {
    Filled(d.username) && d.username.value != u.username
  }

  /** No user, enabled or not, holds the username. */
  predicate NameUnused(t: Table<User>, name: string) {
    forall k :: k in t.rows ==> t.rows[k].username != name
  }

  /** No user, enabled or not, holds the email. */
  predicate EmailUnused(t: Table<User>, email: string) {
    forall k :: k in t.rows ==> t.rows[k].email != email
  }

  /**
   `updateUserProfile` with the email comparison given as a parameter: a new name is copied, a
   new username is screened and must be free, and a new email is only staged with a token. The
   reply is the saved row itself, password hash included (`return await usuario.save()`).
   */
  function UpdateProfileWith(t: Table<User>, id: nat, d: ProfileEdit, token: string, profane: string -> bool,
                             differs: (string, string) -> bool): (r: (Table<User>, Result<User>))
    ensures r.1.Err? ==> r.0 == t
    ensures id !in t.rows <==> r.1 == Err(UserNotFound)
    ensures r.1.Ok? ==> id in t.rows && id in r.0.rows
    ensures r.1.Ok? ==>
      var u := t.rows[id];
      var u' := r.0.rows[id];
      && r.0.rows == t.rows[id := u'] && r.1.value == u'
      // only the name, the username and the staged email change
      && u' == u.(nomeCompleto := u'.nomeCompleto, username := u'.username,
                  unconfirmedEmail := u'.unconfirmedEmail, emailChangeToken := u'.emailChangeToken)
      && u'.nomeCompleto == (if Filled(d.nomeCompleto) then d.nomeCompleto else u.nomeCompleto)
      && (Filled(d.username) ==> u'.username == d.username.value)
      && (!Filled(d.username) ==> u'.username == u.username)
      && (Filled(d.email) && differs(d.email.value, u.email) ==>
            u'.unconfirmedEmail == d.email && u'.emailChangeToken == Some(token)
            && forall k :: k in t.rows ==> t.rows[k].email != d.email.value)
      && (!(Filled(d.email) && differs(d.email.value, u.email)) ==>
            u'.unconfirmedEmail == u.unconfirmedEmail && u'.emailChangeToken == u.emailChangeToken)
    ensures (&& id in t.rows && Filled(d.username) && d.username.value != t.rows[id].username
             && exists k :: k in t.rows && t.rows[k].username == d.username.value) ==> r.1.Err?
    // the checks in order: profanity of a new username, then its use, then the use of a new email
    ensures id in t.rows && Renames(t.rows[id], d) && profane(d.username.value) ==> r.1 == Err(Profanity)
    ensures (&& id in t.rows && Renames(t.rows[id], d) && !profane(d.username.value)
             && !NameUnused(t, d.username.value)) ==> r.1 == Err(NewUsernameTaken)
    ensures (&& id in t.rows && !(Renames(t.rows[id], d) && (profane(d.username.value) || !NameUnused(t, d.username.value)))
             && Filled(d.email) && differs(d.email.value, t.rows[id].email) && !EmailUnused(t, d.email.value))
            ==> r.1 == Err(NewEmailTaken)
    ensures (&& id in t.rows && !(Renames(t.rows[id], d) && (profane(d.username.value) || !NameUnused(t, d.username.value)))
             && !(Filled(d.email) && differs(d.email.value, t.rows[id].email) && !EmailUnused(t, d.email.value)))
            ==> r.1.Ok?
  {
    if id !in t.rows then (t, Err(UserNotFound))
    else
      var u := t.rows[id];
      var u1 := if Filled(d.nomeCompleto) then u.(nomeCompleto := d.nomeCompleto) else u;
      var renaming := Filled(d.username) && d.username.value != u.username;
      if renaming && profane(d.username.value) then (t, Err(Profanity))
      else if renaming && FindOne(t, (v: User) => v.username == d.username.value).Some? then (t, Err(NewUsernameTaken))
      else
        var u2 := if renaming then u1.(username := d.username.value) else u1;
        if Filled(d.email) && differs(d.email.value, u.email) then
          if FindOne(t, (v: User) => v.email == d.email.value).Some? then (t, Err(NewEmailTaken))
          else
            var u3 := u2.(unconfirmedEmail := d.email, emailChangeToken := Some(token));
            (Put(t, id, u3), Ok(u3))
        else (Put(t, id, u2), Ok(u2))
  }

  /** `updateUserProfile` as written. */
  function UpdateProfile(t: Table<User>, id: nat, d: ProfileEdit, token: string, profane: string -> bool): (r: (Table<User>, Result<User>))
  {
    UpdateProfileWith(t, id, d, token, profane, EmailDiffers)
  }

  /** A successful profile edit replies with the stored password hash, unlike `register` and `login`. */
  lemma ProfileReplyCarriesHash(t: Table<User>, id: nat, d: ProfileEdit, token: string, profane: string -> bool)
    requires UpdateProfile(t, id, d, token, profane).1.Ok?
    ensures id in t.rows && UpdateProfile(t, id, d, token, profane).1.value.password == t.rows[id].password
  {
  }

  /** The user table with one user's password hash replaced. */
  function WithPassword(t: Table<User>, id: nat, hash: string): (r: Table<User>)
    requires id in t.rows
    ensures r.rows.Keys == t.rows.Keys && r.rows[id].password == hash
    ensures forall k :: k in t.rows ==> r.rows[k] == (if k == id then t.rows[id].(password := hash) else t.rows[k])
  {
    Put(t, id, t.rows[id].(password := hash))
  }

  /**
   `updateUserProfile` replying as `register` and `login` do: the saved row without its password
   hash. The table and the outcome are those of `updateUserProfile`.
   */
  function UpdateProfileSafe(t: Table<User>, id: nat, d: ProfileEdit, token: string, profane: string -> bool): (r: (Table<User>, Result<SafeUser>))
    ensures r.0 == UpdateProfile(t, id, d, token, profane).0
    ensures r.1.Ok? <==> UpdateProfile(t, id, d, token, profane).1.Ok?
    ensures r.1.Err? ==> r.1 == Err(UpdateProfile(t, id, d, token, profane).1.message)
    ensures r.1.Ok? ==> id in r.0.rows && r.1.value == Safe(r.0.rows[id])
  {
    var (t', res) := UpdateProfile(t, id, d, token, profane);
    match res
    case Ok(u) => (t', Ok(Safe(u)))
    case Err(m) => (t', Err(m))
  }

  /** The corrected reply does not depend on the password hash: changing the hash changes nothing the client sees. */
  lemma {:induction false} UpdateProfileSafeHidesPassword(t: Table<User>, id: nat, d: ProfileEdit, token: string,
                                                          profane: string -> bool, hash: string)
    requires id in t.rows
    ensures UpdateProfileSafe(WithPassword(t, id, hash), id, d, token, profane).1 == UpdateProfileSafe(t, id, d, token, profane).1
  {
    var t2 := WithPassword(t, id, hash);
    forall x ensures NameUnused(t2, x) <==> NameUnused(t, x) { }
    forall x ensures EmailUnused(t2, x) <==> EmailUnused(t, x) { }
    var r1 := UpdateProfile(t, id, d, token, profane);
    var r2 := UpdateProfile(t2, id, d, token, profane);
    assert r2.1.Ok? <==> r1.1.Ok?;
    if r1.1.Ok? {
      assert r2.1.value == r1.1.value.(password := hash);
    } else {
      assert r2.1 == r1.1;
    }
  }

  /**
   Resubmitting one's own email when it holds an upper-case letter fails: the lower-cased
   submission differs from the stored address, and the lookup then finds the user itself.
   */
  lemma ResubmittedEmailRejected()
    ensures var u := User(None, "ana", "Ana@x.com", "h", true, None, None, None, None, None);
      var t: Table<User> := TableRaw(map[1 := u], 2);
      UpdateProfile(t, 1, ProfileEdit(None, None, Some("Ana@x.com")), "tok", _ => false).1 == Err(NewEmailTaken)
  {
    var u := User(None, "ana", "Ana@x.com", "h", true, None, None, None, None, None);
    var t: Table<User> := TableRaw(map[1 := u], 2);
    assert Lower("Ana@x.com")[0] == 'a';
    assert 1 in t.rows && t.rows[1].email == "Ana@x.com";
    assert FindOne(t, (v: User) => v.email == "Ana@x.com").Some?;
  }

  /** The email comparison with both sides lower-cased. */
  predicate EmailDiffersFolded(submitted: string, stored: string) {
    Lower(submitted) != Lower(stored)
  }

  /** `updateUserProfile` with the email comparison case-insensitive on both sides. */
  function UpdateProfileFolded(t: Table<User>, id: nat, d: ProfileEdit, token: string, profane: string -> bool): (r: (Table<User>, Result<User>))
  {
    UpdateProfileWith(t, id, d, token, profane, EmailDiffersFolded)
  }

  /** With the folded comparison, resubmitting one's own email (in any case) never fails and stages nothing. */
  lemma OwnEmailAccepted(t: Table<User>, id: nat, email: string, token: string, profane: string -> bool)
    requires id in t.rows && Lower(email) == Lower(t.rows[id].email)
    ensures var (t', r) := UpdateProfileFolded(t, id, ProfileEdit(None, None, Some(email)), token, profane);
      r.Ok? && t'.rows[id] == t.rows[id]
  {
  }

  /** A staged email change is completed by its token: the staged address becomes the email. */
  lemma StageThenConfirm(t: Table<User>, id: nat, d: ProfileEdit, token: string, profane: string -> bool)
    requires forall k :: k in t.rows ==> t.rows[k].emailChangeToken != Some(token)
    requires UpdateProfileFolded(t, id, d, token, profane).1.Ok?
    requires Filled(d.email) && EmailDiffersFolded(d.email.value, t.rows[id].email)
    ensures var t1 := UpdateProfileFolded(t, id, d, token, profane).0;
      var (t2, r) := ConfirmEmailChange(t1, token);
      r == Ok(id) && t2.rows[id].email == d.email.value
      && t2.rows[id].unconfirmedEmail.None? && t2.rows[id].emailChangeToken.None?
  {
    var t1 := UpdateProfileFolded(t, id, d, token, profane).0;
    assert forall k :: k in t1.rows && t1.rows[k].emailChangeToken == Some(token) ==> k == id;
  }

  /** `updateUserPassword`: the current password must match; then only the hash changes. */
  function UpdatePassword(t: Table<User>, id: nat, current: string, hashed: string, matches: (string, string) -> bool): (r: (Table<User>, Result<()>))
    ensures r.1.Err? ==> r.0 == t
    ensures id !in t.rows <==> r.1 == Err(UserNotFound)
    ensures id in t.rows ==> (r.1.Ok? <==> matches(current, t.rows[id].password))
    ensures r.1.Ok? ==> r.0.rows == t.rows[id := t.rows[id].(password := hashed)]
  {
    if id !in t.rows then (t, Err(UserNotFound))
    else if !matches(current, t.rows[id].password) then (t, Err(WrongPassword))
    else (Put(t, id, t.rows[id].(password := hashed)), Ok(()))
  }

  /** `deleteUser`: the user's reviews are detached, not deleted, and then the user is removed. */
  function DeleteUser(t: Table<User>, reviews: Table<Reviews.Review>, id: nat): (r: (Table<User>, Table<Reviews.Review>, Result<()>))
    ensures r.2.Err? <==> id !in t.rows
    ensures r.2.Err? ==> r.0 == t && r.1 == reviews
    ensures r.2.Ok? ==>
      && r.0.rows == t.rows - {id}
      && r.1.rows.Keys == reviews.rows.Keys && r.1.next == reviews.next
      && (forall k :: k in reviews.rows ==> r.1.rows[k].usuarioId != Some(id))
      // the user's reviews lose only their author; every other review is untouched
      && forall k :: k in reviews.rows ==>
           r.1.rows[k] == (if reviews.rows[k].usuarioId == Some(id) then reviews.rows[k].(usuarioId := None) else reviews.rows[k])
  {
    if id !in t.rows then (t, reviews, Err(UserNotFound))
    else (Delete(t, id), Reviews.Detach(reviews, id), Ok(()))
  }

  /**
   The account invariant: an enabled account has no pending confirmation token, a staged email
   and its token come and go together, and so do a reset token and its expiry.
   */
  predicate Consistent(u: User) {
    && (u.enabled ==> u.confirmationToken.None?)
    && (u.unconfirmedEmail.Some? <==> u.emailChangeToken.Some?)
    && (u.resetToken.Some? <==> u.resetExpiry.Some?)
  }

  predicate AllConsistent(t: Table<User>) {
    forall k :: k in t.rows ==> Consistent(t.rows[k])
  }

  lemma RegisterKeepsConsistent(t: Table<User>, d: Signup, hashed: string, token: string, f: NameFilters)
    requires AllConsistent(t)
    ensures AllConsistent(Register(t, d, hashed, token, f).0)
  {
  }

  lemma ConfirmationsKeepConsistent(t: Table<User>, token: string)
    requires AllConsistent(t)
    ensures AllConsistent(ConfirmAccount(t, token).0)
    ensures AllConsistent(ConfirmEmailChange(t, token).0)
  {
  }

  lemma ResetKeepsConsistent(t: Table<User>, email: string, token: string, hashed: string, now: int)
    requires AllConsistent(t)
    ensures AllConsistent(ForgotPassword(t, email, token, now))
    ensures AllConsistent(ResetPassword(t, token, hashed, now).0)
  {
  }

  lemma ProfileKeepsConsistent(t: Table<User>, id: nat, d: ProfileEdit, token: string, profane: string -> bool,
                               differs: (string, string) -> bool)
    requires AllConsistent(t)
    ensures AllConsistent(UpdateProfileWith(t, id, d, token, profane, differs).0)
  {
  }
}
