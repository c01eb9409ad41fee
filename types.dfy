/** The records of types.ts and constants.ts that the modelled handlers pass around. */
module Types {

  /** 'user' | 'admin' */
  datatype Role = UserRole | AdminRole

  /** The generated manuscript (BookContent). */
  datatype BookContent = BookContent(
    title: string,
    author: string,
    foreword: string,
    toc: seq<string>,
    introduction: string,
    chapters: seq<string>,
    bibliography: string)

  /**
   * A user as the session and the admin table hold it (User). The optional
   * `password` is "" when it is absent; every use of it in the source treats
   * an absent and an empty password alike.
   */
  datatype User = User(id: string, username: string, role: Role, lastLogin: string, password: string)

  /** 'login' | 'dashboard' | 'admin' */
  datatype AppView = LoginView | DashboardView | AdminView

  /** An entry of the static credential table (Credential). */
  datatype Credential = Credential(username: string, password: string, role: Role)

  /**
   * An entry of the persisted `custom_users` list. Its `id` is "" for an entry
   * that has none (the static credentials never do).
   */
  datatype StoredUser = StoredUser(id: string, username: string, password: string, role: Role)
}
