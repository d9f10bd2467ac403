/**
 * The member join/login decision logic of the v1 member API controller, over a
 * member store keyed by username. Every handler yields the store after the call
 * together with either a result envelope (code, message, data) or the typed
 * service error (code, message) that the controller throws.
 */
module Members {
  import opened Wrappers

  /** Identifier the persistence layer assigns to a member. */
  type MemberId = nat

  /**
   * A member: username, plaintext password and nickname, plus the API key that
   * login hands back. Where the key comes from is not part of this model, so it
   * is an opaque string here.
   */
  datatype Member = Member(id: MemberId, username: string, password: string, nickname: string, apiKey: string)

  /** The member repository, looked up by username. */
  type Store = map<string, Member>

  /** The result envelope of every successful API call. */
  datatype RsData<T> = RsData(resultCode: string, msg: string, data: T)

  /** The typed error a handler throws; rendered into an envelope by a global handler. */
  datatype ServiceError = ServiceError(resultCode: string, msg: string)

  datatype JoinResBody = JoinResBody(member: Member)

  datatype LoginResBody = LoginResBody(member: Member, apiKey: string)

  /** What a handler leaves behind: the store after the call and its outcome. */
  datatype Reply<T> = Reply(store: Store, result: Result<RsData<T>, ServiceError>)

  /** A message with one `%s` hole: the text before it and the text after it. */
  datatype Template = Template(before: string, after: string)

  /** `template.formatted(arg)` for a template holding exactly one `%s`. */
  function Format(t: Template, arg: string): string
  {
    t.before + arg + t.after
  }

  /** Recovers the argument a message was formatted with, if it fits the template. */
  function Unformat(t: Template, s: string): Option<string>
  {
    if |t.before| + |t.after| <= |s| && s[..|t.before|] == t.before && s[|s| - |t.after|..] == t.after
    then Some(s[|t.before|..|s| - |t.after|])
    else None
  }

  /** Formatting can always be undone: the argument is recoverable from the message. */
  lemma UnformatFormat(t: Template, arg: string)
    ensures Unformat(t, Format(t, arg)) == Some(arg)
  {
    var s := Format(t, arg);
    assert s[..|t.before|] == t.before;
    assert s[|s| - |t.after|..] == t.after;
    assert s[|t.before|..|s| - |t.after|] == arg;
  }

  /** Conversely, a message that fits the template is the template formatted with what it holds. */
  lemma FormatUnformat(t: Template, s: string, arg: string)
    requires Unformat(t, s) == Some(arg)
    ensures Format(t, arg) == s
  {
    assert s == s[..|t.before|] + s[|t.before|..|s| - |t.after|] + s[|s| - |t.after|..];
  }

  /** Distinct arguments give distinct messages. */
  lemma FormatInjective(t: Template, a: string, b: string)
    requires Format(t, a) == Format(t, b)
    ensures a == b
  {
    UnformatFormat(t, a);
    UnformatFormat(t, b);
  }

  const JoinCreated := "201-1"
  const DuplicateUsername := "409-1"
  const LoginOk := "200-1"
  const UnknownUsername := "401-1"
  const WrongPassword := "401-2"

  const JoinWelcome := Template("회원가입이 완료되었습니다. ", "님 환영합니다.")
  const LoginWelcome := Template("", "님 환영합니다.")
  const DuplicateUsernameMsg := "이미 사용중인 아이디입니다."
  const UnknownUsernameMsg := "존재하지 않는 아이디입니다."
  const WrongPasswordMsg := "비밀번호가 일치하지 않습니다."

  /** The member service's single-field lookup. */
  function FindByUsername(store: Store, username: string): Option<Member>
  {
    if username in store then Some(store[username]) else None
  }

  /** Every entry is filed under its own username, and member ids are distinct. */
  predicate StoreWellFormed(store: Store)
  {
    && (forall u :: u in store ==> store[u].username == u)
    && (forall u, v :: u in store && v in store && u != v ==> store[u].id != store[v].id)
  }

  /** True when no member of the store carries the id. */
  predicate FreshId(store: Store, id: MemberId)
  {
    forall u :: u in store ==> store[u].id != id
  }

  /**
   * POST /join. A taken username is refused with 409-1 before anything is
   * written; otherwise the member service stores a new member (its id and API
   * key come from code outside this model and are passed in) and the reply is 201-1 with a welcome
   * message naming the nickname.
   */
  function Join(store: Store, username: string, password: string, nickname: string,
                newId: MemberId, apiKey: string): (r: Reply<JoinResBody>)
    ensures username in store ==>
      r.store == store && r.result == Failure(ServiceError(DuplicateUsername, DuplicateUsernameMsg))
    ensures username !in store ==>
      && r.store.Keys == store.Keys + {username}
      && (forall u :: u in store ==> r.store[u] == store[u])
      && r.store[username].id == newId
      && r.store[username].username == username
      && r.store[username].password == password
      && r.store[username].nickname == nickname
      && r.store[username].apiKey == apiKey
      && r.result.Success?
      && r.result.value.resultCode == JoinCreated
      && Unformat(JoinWelcome, r.result.value.msg) == Some(nickname)
      && r.result.value.data.member == r.store[username]
  {
    match FindByUsername(store, username)
    case Some(_) => Reply(store, Failure(ServiceError(DuplicateUsername, DuplicateUsernameMsg)))
    case None =>
      var member := Member(newId, username, password, nickname, apiKey);
      UnformatFormat(JoinWelcome, nickname);
      Reply(store[username := member], Success(RsData(JoinCreated, Format(JoinWelcome, nickname), JoinResBody(member))))
  }

  /**
   * POST /login. An unknown username fails with 401-1; only a found member's
   * password is compared (plain string equality), failing with 401-2; otherwise
   * 200-1 with the member and its API key. The store is never written.
   */
  function Login(store: Store, username: string, password: string): (r: Reply<LoginResBody>)
    ensures r.store == store
    ensures r.result == Failure(ServiceError(UnknownUsername, UnknownUsernameMsg)) <==> username !in store
    ensures r.result == Failure(ServiceError(WrongPassword, WrongPasswordMsg)) <==>
      username in store && store[username].password != password
    ensures r.result.Success? <==> username in store && store[username].password == password
    ensures r.result.Success? ==>
      && r.result.value.resultCode == LoginOk
      && Unformat(LoginWelcome, r.result.value.msg) == Some(username)
      && r.result.value.data.member == store[username]
      && r.result.value.data.apiKey == store[username].apiKey
  {
    match FindByUsername(store, username)
    case None => Reply(store, Failure(ServiceError(UnknownUsername, UnknownUsernameMsg)))
    case Some(member) =>
      if member.password != password then
        Reply(store, Failure(ServiceError(WrongPassword, WrongPasswordMsg)))
      else
        UnformatFormat(LoginWelcome, username);
        Reply(store, Success(RsData(LoginOk, Format(LoginWelcome, username), LoginResBody(member, member.apiKey))))
  }

  /** A successful join keeps the store well formed, given the id it was handed is unused. */
  lemma JoinPreservesWellFormed(store: Store, username: string, password: string, nickname: string,
                                newId: MemberId, apiKey: string)
    requires StoreWellFormed(store)
    requires FreshId(store, newId)
    ensures StoreWellFormed(Join(store, username, password, nickname, newId, apiKey).store)
  {
    var s' := Join(store, username, password, nickname, newId, apiKey).store;
    if username !in store {
      forall u, v | u in s' && v in s' && u != v
        ensures s'[u].id != s'[v].id
      {
        if u == username {
          assert v in store;
        } else if v == username {
          assert u in store;
        } else {
          assert u in store && v in store;
        }
      }
    }
  }

  /** Whoever has just joined can log in with the same credentials and gets the new API key. */
  lemma JoinThenLogin(store: Store, username: string, password: string, nickname: string,
                      newId: MemberId, apiKey: string)
    requires username !in store
    ensures var s' := Join(store, username, password, nickname, newId, apiKey).store;
      var r := Login(s', username, password).result;
      && r.Success?
      && r.value.resultCode == LoginOk
      && r.value.data.member.nickname == nickname
      && r.value.data.member.id == newId
      && r.value.data.apiKey == apiKey
  {
  }

  /** Right after joining, any other password is refused with 401-2, never 401-1. */
  lemma JoinThenWrongPassword(store: Store, username: string, password: string, nickname: string,
                              newId: MemberId, apiKey: string, attempt: string)
    requires username !in store
    requires attempt != password
    ensures var s' := Join(store, username, password, nickname, newId, apiKey).store;
      Login(s', username, attempt).result == Failure(ServiceError(WrongPassword, WrongPasswordMsg))
  {
  }

  /** Joining twice with one username: the second call is refused and changes nothing. */
  lemma JoinTwiceRefused(store: Store, username: string, password: string, nickname: string,
                         newId: MemberId, apiKey: string,
                         password2: string, nickname2: string, newId2: MemberId, apiKey2: string)
    ensures var s' := Join(store, username, password, nickname, newId, apiKey).store;
      var r := Join(s', username, password2, nickname2, newId2, apiKey2);
      r.store == s' && r.result == Failure(ServiceError(DuplicateUsername, DuplicateUsernameMsg))
  {
  }
}
