/** The account fields the file and auth routes consult (`User` in
    app/auth/models.py). The stored password is a bcrypt hash, kept opaque. */
module Users {
  import opened Types

  datatype User = User(
    id: string,
    username: string,
    email: string,
    isSuperuser: bool,
    isActive: bool,
    passwordHash: string,
    realName: Option<string>)
}
