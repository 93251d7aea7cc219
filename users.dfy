/** UserServices.loadUserByUsername: the user lookup the token provider depends on. */
module Users {
  import opened Exceptions

  /** A stored user as the repository returns it: name, password hash and the
      authorities its getAuthorities reports. */
  datatype User = User(userName: string, password: string, authorities: seq<string>)

  /** The user repository, keyed by the name findByUsername is asked for. */
  type UserRepository = map<string, User>

  /** Spring's User(username, password, authorities) as returned to the framework. */
  datatype UserDetails = UserDetails(username: string, password: string, authorities: seq<string>)

  /** repository.findByUsername: null (None) when no user has that name; a null name finds nobody. */
  function FindByUsername(repository: UserRepository, username: Option<string>): (r: Option<User>)
    ensures r.Some? <==> username.Some? && username.value in repository
    ensures r.Some? ==> r.value == repository[username.value]
  {
    if username.Some? && username.value in repository then Some(repository[username.value]) else None
  }

  /** Java string concatenation renders null as "null". */
  function NotFoundMessage(username: Option<string>): (m: string)
    ensures username.Some? ==> m == "Username " + username.value + " not found!"
    ensures username.None? ==> m == "Username null not found!"
  {
    "Username " + (if username.Some? then username.value else "null") + " not found!"
  }

  /** Returns the stored user's details, or throws UsernameNotFoundException. */
  function LoadUserByUsername(repository: UserRepository, username: Option<string>): (r: Result<UserDetails>)
    ensures r.Success? <==> username.Some? && username.value in repository
    ensures r.Success? ==>
      var u := repository[username.value];
      r.value.username == u.userName && r.value.password == u.password && r.value.authorities == u.authorities
    ensures r.Failure? ==> r.error == UsernameNotFound(NotFoundMessage(username))
  {
    match FindByUsername(repository, username)
    case Some(user) => Success(UserDetails(user.userName, user.password, user.authorities))
    case None => Failure(UsernameNotFound(NotFoundMessage(username)))
  }
}
