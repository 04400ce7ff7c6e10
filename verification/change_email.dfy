/** The "change account e-mail" handler: an e-mail some member already uses ends the
    request silently, as does asking for one's own current e-mail; otherwise the
    current user must exist and give the right password before the e-mail changes. */
module EmailChange {
  import opened Store

  const ShortPasswordMessage: string := "Senha deve ter no mínimo 6 caracteres"
  const UserNotFoundMessage: string := "User not found"
  const InvalidCredentialsMessage: string := "Invalid credentials"

  /** `passwordMatches(password, hash)` stands for the password hash comparison. The
      returned store is the one after the request; `Ok(db)` is the silent 204. */
  function ChangeEmail(db: Db, userId: MemberId, email: string, password: string,
                       passwordMatches: (string, string) -> bool): (r: Result<Db>)
    // the length is counted in UTF-16 code units, as a JavaScript string counts it
    ensures r == Err(BadRequest(ShortPasswordMessage)) <==> Utf16Length(password) < MinPasswordLength
    // an e-mail already in use: success with nothing written, and the password is not looked at
    ensures Utf16Length(password) >= MinPasswordLength && EmailInUse(db.members, email) ==> r == Ok(db)
    ensures r == Err(NotFound(UserNotFoundMessage)) <==>
              Utf16Length(password) >= MinPasswordLength && !EmailInUse(db.members, email) && userId !in db.members
    ensures r == Err(BadRequest(InvalidCredentialsMessage)) <==>
              && Utf16Length(password) >= MinPasswordLength && !EmailInUse(db.members, email) && userId in db.members
              && !passwordMatches(password, db.members[userId].passwordHash)
    ensures r.Err? ==> r.error in {BadRequest(ShortPasswordMessage), NotFound(UserNotFoundMessage),
                                   BadRequest(InvalidCredentialsMessage)}
    // the right password for an existing user and a free e-mail: the e-mail is changed
    ensures && Utf16Length(password) >= MinPasswordLength && !EmailInUse(db.members, email) && userId in db.members
            && passwordMatches(password, db.members[userId].passwordHash) ==>
              r == Ok(db.(members := db.members[userId := db.members[userId].(email := email)]))
    // a changed store differs only in the current user's e-mail, which is now the requested one
    ensures r.Ok? && r.value != db ==>
              && userId in db.members
              && r.value.members == db.members[userId := db.members[userId].(email := email)]
              && r.value.(members := db.members) == db
  {
    if Utf16Length(password) < MinPasswordLength then Err(BadRequest(ShortPasswordMessage))
    else if EmailInUse(db.members, email) then Ok(db)
    else if userId !in db.members then Err(NotFound(UserNotFoundMessage))
    else
      var user := db.members[userId];
      if user.email == email then Ok(db)
      else if !passwordMatches(password, user.passwordHash) then Err(BadRequest(InvalidCredentialsMessage))
      else Ok(db.(members := db.members[userId := user.(email := email)]))
  }

  /** The same chain without the `user.email === email` branch. */
  function ChangeEmailWithoutOwnEmailCheck(db: Db, userId: MemberId, email: string, password: string,
                                           passwordMatches: (string, string) -> bool): Result<Db>
  {
    if Utf16Length(password) < MinPasswordLength then Err(BadRequest(ShortPasswordMessage))
    else if EmailInUse(db.members, email) then Ok(db)
    else if userId !in db.members then Err(NotFound(UserNotFoundMessage))
    else
      var user := db.members[userId];
      if !passwordMatches(password, user.passwordHash) then Err(BadRequest(InvalidCredentialsMessage))
      else Ok(db.(members := db.members[userId := user.(email := email)]))
  }

  /** The own-e-mail branch is dead: a user whose e-mail is the requested one is a
      member using it, so the first lookup has already ended the request. This holds
      even without unique e-mails. */
  lemma OwnEmailBranchIsUnreachable(db: Db, userId: MemberId, email: string, password: string,
                                    passwordMatches: (string, string) -> bool)
    ensures ChangeEmail(db, userId, email, password, passwordMatches)
            == ChangeEmailWithoutOwnEmailCheck(db, userId, email, password, passwordMatches)
  {
  }

  /** A password of three characters outside the Basic Multilingual Plane passes the
      length rule, so a free e-mail and a matching password change the e-mail. */
  lemma AstralPasswordChangesEmail(db: Db, userId: MemberId, email: string,
                                   passwordMatches: (string, string) -> bool)
    requires !EmailInUse(db.members, email) && userId in db.members
    requires passwordMatches("\U{1F600}\U{1F600}\U{1F600}", db.members[userId].passwordHash)
    ensures ChangeEmail(db, userId, email, "\U{1F600}\U{1F600}\U{1F600}", passwordMatches)
              == Ok(db.(members := db.members[userId := db.members[userId].(email := email)]))
  {
    AstralCharactersCountTwice();
  }

  /** When the e-mail is in use, the outcome does not depend on the password check. */
  lemma PasswordUncheckedWhenEmailInUse(db: Db, userId: MemberId, email: string, password: string,
                                        m1: (string, string) -> bool, m2: (string, string) -> bool)
    requires EmailInUse(db.members, email)
    ensures ChangeEmail(db, userId, email, password, m1) == ChangeEmail(db, userId, email, password, m2)
  {
  }

  /** A changed e-mail keeps the e-mails unique and the rest of the integrity intact. */
  lemma ChangePreservesWellFormed(db: Db, userId: MemberId, email: string, password: string,
                                  passwordMatches: (string, string) -> bool)
    requires WellFormed(db)
    requires ChangeEmail(db, userId, email, password, passwordMatches).Ok?
    ensures WellFormed(ChangeEmail(db, userId, email, password, passwordMatches).value)
  {
  }
}
