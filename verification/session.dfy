/**
 * app/models/session.go: the in-memory registry of sessions, each a map of
 * IMAP servers, and a server's connection handle: reused while present, made
 * by dialling, upgraded to TLS when offered and logged in when needed.
 */
module Session {
  import opened Wrappers

  /** `ServerLogoutTimeout`, ten seconds. */
  const ServerLogoutTimeoutSeconds: nat := 10

  /** The go-imap client states that matter here: `Login` still needs a login. */
  datatype ClientState = Login | Auth | Selected | Closed

  /**
   * A dialled IMAP client: an identity, whether it advertises STARTTLS, and
   * the state it is in once any TLS upgrade is done.
   */
  datatype Client = Client(id: nat, startTLS: bool, state: ClientState)

  /** `imap.Dial`, `StartTLS`, `Login` and `Logout`, left abstract: a client or error, else the error if any. */
  type Dialer = string -> Result<Client>
  type TlsStarter = Client -> Option<string>
  type LoginAttempt = (Client, string, string) -> Option<string>
  type Logout = (Client, nat) -> Option<string>

  /** What `Connect` returns, the handle it leaves and the clients it logged out. */
  datatype Connection = Connection(result: Result<Client>, client: Option<Client>, logouts: seq<Client>)

  /**
   * `Connect`: a present handle is returned without dialling. Otherwise dial;
   * the dialled client becomes the handle at once. STARTTLS is tried only when
   * advertised, login only in the `Login` state; a failure of either closes
   * (logs out) and returns the error, and the handle stays.
   */
  function Handshake(client: Option<Client>, hostname: string, username: string, password: string,
                     dial: Dialer, startTLS: TlsStarter, login: LoginAttempt): (c: Connection)
    ensures client.Some? ==> c == Connection(Ok(client.value), client, [])
    ensures client.None? && dial(hostname).Err? ==> c == Connection(Err(dial(hostname).error), None, [])
    ensures client.None? && dial(hostname).Ok? ==> c.client == Some(dial(hostname).value)
    ensures c.result.Ok? ==> c.client == Some(c.result.value) && c.logouts == []
    ensures c.result.Err? ==> c.logouts == (if c.client.Some? then [c.client.value] else [])
    ensures client.None? && c.result.Ok? ==>
              && (c.result.value.startTLS ==> startTLS(c.result.value).None?)
              && (c.result.value.state == Login ==> login(c.result.value, username, password).None?)
    ensures client.None? && dial(hostname).Ok? ==>
              var d := dial(hostname).value;
              if d.startTLS && startTLS(d).Some? then c.result == Err(startTLS(d).value)
              else if d.state == Login && login(d, username, password).Some? then c.result == Err(login(d, username, password).value)
              else c.result == Ok(d)
  {
    if client.Some? then Connection(Ok(client.value), client, [])
    else
      match dial(hostname)
      case Err(e) => Connection(Err(e), None, [])
      case Ok(c) =>
        if c.startTLS && startTLS(c).Some? then Connection(Err(startTLS(c).value), Some(c), [c])
        else if c.state == Login && login(c, username, password).Some? then
          Connection(Err(login(c, username, password).value), Some(c), [c])
        else Connection(Ok(c), Some(c), [])
  }

  /**
   * Because a failed TLS upgrade or login leaves the handle, the next `Connect`
   * returns that client with no error, without TLS and without a login.
   */
  lemma FailedLoginHandleIsReused(hostname: string, username: string, password: string,
                                  dial: Dialer, startTLS: TlsStarter, login: LoginAttempt,
                                  dial2: Dialer, startTLS2: TlsStarter, login2: LoginAttempt)
    requires dial(hostname).Ok?
    requires Handshake(None, hostname, username, password, dial, startTLS, login).result.Err?
    ensures var first := Handshake(None, hostname, username, password, dial, startTLS, login);
      Handshake(first.client, hostname, username, password, dial2, startTLS2, login2).result == Ok(dial(hostname).value)
  {
  }

  /** Once a connection is made, every later `Connect` returns the same client. */
  lemma ConnectIsIdempotent(client: Option<Client>, hostname: string, username: string, password: string,
                            dial: Dialer, startTLS: TlsStarter, login: LoginAttempt,
                            dial2: Dialer, startTLS2: TlsStarter, login2: LoginAttempt)
    requires Handshake(client, hostname, username, password, dial, startTLS, login).result.Ok?
    ensures var first := Handshake(client, hostname, username, password, dial, startTLS, login);
      Handshake(first.client, hostname, username, password, dial2, startTLS2, login2) == Connection(first.result, first.client, [])
  {
  }

  /** `Server`: an account on an IMAP server and its connection handle. */
  class Server {
    const hostname: string
    const username: string
    const password: string
    var client: Option<Client>
    /** The clients logged out so far, in order. */
    ghost var logouts: seq<Client>

    constructor (hostname: string, username: string, password: string)
      ensures this.hostname == hostname && this.username == username && this.password == password
      ensures client == None && logouts == []
    {
      this.hostname := hostname;
      this.username := username;
      this.password := password;
      client := None;
      logouts := [];
    }

    /** `Close`: log out a present handle and return that result; the handle itself is kept. */
    method Close(logout: Logout) returns (err: Option<string>)
      modifies this
      ensures client == old(client)
      ensures old(client).None? ==> err == None && logouts == old(logouts)
      ensures old(client).Some? ==> err == logout(old(client).value, ServerLogoutTimeoutSeconds)
                                    && logouts == old(logouts) + [old(client).value]
    {
      if client.Some? {
        logouts := logouts + [client.value];
        return logout(client.value, ServerLogoutTimeoutSeconds);
      }
      client := None;
      return None;
    }

    /** `Connect` over the abstract dial, STARTTLS, login and logout. */
    method Connect(dial: Dialer, startTLS: TlsStarter, login: LoginAttempt, logout: Logout) returns (r: Result<Client>)
      modifies this
      ensures var c := Handshake(old(client), hostname, username, password, dial, startTLS, login);
        r == c.result && client == c.client && logouts == old(logouts) + c.logouts
    {
      if client.Some? {
        return Ok(client.value);
      }
      var dialled := dial(hostname);
      if dialled.Err? {
        return Err(dialled.error);
      }
      var c := dialled.value;
      client := Some(c);
      if c.startTLS {
        var tlsErr := startTLS(c);
        if tlsErr.Some? {
          var ignored := Close(logout);
          return Err(tlsErr.value);
        }
      }
      if c.state == Login {
        var loginErr := login(c, username, password);
        if loginErr.Some? {
          var ignored := Close(logout);
          return Err(loginErr.value);
        }
      }
      return Ok(client.value);
    }
  }

  /** `Session`: the servers of one user, by name. A Go map is shared by reference, hence a class. */
  class Session {
    var servers: map<string, Server>

    constructor ()
      ensures servers == map[]
    {
      servers := map[];
    }
  }

  /** The in-memory datastore: session id to session. */
  class Registry {
    var sessions: map<string, Session>

    constructor ()
      ensures sessions == map[]
    {
      sessions := map[];
    }

    /** `NewOrCreateSession`: the session under `id`, made empty and stored when absent. */
    method NewOrCreateSession(id: string) returns (ses: Session)
      modifies this
      ensures id in old(sessions) ==> ses == old(sessions)[id] && sessions == old(sessions)
      ensures id !in old(sessions) ==> fresh(ses) && ses.servers == map[] && sessions == old(sessions)[id := ses]
    {
      if id in sessions {
        return sessions[id];
      }
      ses := new Session();
      sessions := sessions[id := ses];
    }

    /** Asking twice for the same id gives the same session, and the second call changes nothing. */
    method NewOrCreateTwice(id: string) returns (first: Session, second: Session)
      modifies this
      ensures id in sessions && first == second && first == sessions[id]
      ensures id in old(sessions) ==> sessions == old(sessions)
      ensures sessions.Keys == old(sessions).Keys + {id}
    {
      first := NewOrCreateSession(id);
      ghost var between := sessions;
      second := NewOrCreateSession(id);
      assert sessions == between;
    }

    /**
     * `DestroySession`: close every server of the session, then forget the id.
     * Every server's handle is kept, and each server holding one has been
     * logged out at least once (a server stored under two names is closed twice).
     */
    method DestroySession(id: string, logout: Logout)
      modifies this, if id in sessions then sessions[id].servers.Values else {}
      ensures sessions == old(sessions) - {id}
      ensures id in old(sessions) ==> forall s <- old(sessions[id].servers.Values) ::
                && s.client == old(s.client)
                && (old(s.client).None? ==> s.logouts == old(s.logouts))
                && (old(s.client).Some? ==> |s.logouts| > |old(s.logouts)|)
    {
      if id in sessions {
        var ses := sessions[id];
        var servers := ses.servers;
        var remaining := servers.Keys;
        while remaining != {}
          modifies servers.Values
          invariant remaining <= servers.Keys
          invariant forall s <- servers.Values :: s.client == old(s.client)
          invariant forall s <- servers.Values :: old(s.client).None? ==> s.logouts == old(s.logouts)
          invariant forall s <- servers.Values :: |s.logouts| >= |old(s.logouts)|
          invariant forall k <- servers.Keys - remaining :: old(servers[k].client).Some? ==> |servers[k].logouts| > |old(servers[k].logouts)|
          decreases remaining
        {
          var name :| name in remaining;
          var ignored := servers[name].Close(logout);
          remaining := remaining - {name};
        }
      }
      sessions := sessions - {id};
    }
  }
}
