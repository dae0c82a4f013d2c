/**
 * httpBasicAuth: a realm and a store of user name to password, as used for
 * the Basic authentication scheme of RFC 7617 (section 2). The store is
 * filled by addAccount and consulted by validate; the response writer only
 * reads the realm.
 */
module Auth {
  import opened Common

  /** validate on a given store: both arguments non-empty and the stored password equal to the given one. */
  function Check(accounts: map<string, string>, user: string, password: string): bool {
    user != [] && password != [] && user in accounts && accounts[user] == password
  }

  /** The store addAccount leaves: None when it throws on an empty argument, otherwise the entry put (overwriting). */
  function Added(accounts: map<string, string>, user: string, password: string): Option<map<string, string>> {
    if user == [] || password == [] then None else Some(accounts[user := password])
  }

  /** Every stored user name and password is non-empty: what addAccount lets in. */
  predicate WellFormed(accounts: map<string, string>) {
    forall u :: u in accounts ==> u != [] && accounts[u] != []
  }

  /** addAccount refuses exactly the empty user name and the empty password, and keeps the store well formed. */
  lemma AddRefusals(accounts: map<string, string>, user: string, password: string)
    ensures Added(accounts, user, password).None? <==> user == [] || password == []
    ensures WellFormed(accounts) && Added(accounts, user, password).Some? ==>
              WellFormed(Added(accounts, user, password).value)
  {
  }

  /**
   * After an account is added, validate accepts its user with exactly that
   * password (an earlier password no longer works), and answers for every
   * other user as before.
   */
  lemma AddThenCheck(accounts: map<string, string>, user: string, password: string, other: string, guess: string)
    requires Added(accounts, user, password).Some?
    ensures Check(Added(accounts, user, password).value, user, guess) <==> guess == password
    ensures other != user ==>
              (Check(Added(accounts, user, password).value, other, guess) <==> Check(accounts, other, guess))
  {
  }

  /** An empty user name or password never validates, whatever the store holds. */
  lemma CheckRejectsEmpty(accounts: map<string, string>, user: string, password: string)
    ensures user == [] || password == [] ==> !Check(accounts, user, password)
    ensures WellFormed(accounts) ==> (Check(accounts, user, password) <==> user in accounts && accounts[user] == password)
  {
  }

  class BasicAuth {
    const realm: string
    var accounts: map<string, string>

    predicate Valid()
      reads this
    {
      realm != [] && WellFormed(accounts)
    }

    /** The realm constructor once its argument has been checked. */
    constructor (realm: string)
      requires realm != []
      ensures this.realm == realm && accounts == map[] && Valid()
    {
      this.realm := realm;
      accounts := map[];
    }

    /** httpBasicAuth(realm): throws on an empty realm (null here), otherwise an empty store. */
    static method Create(realm: string) returns (a: BasicAuth?)
      ensures a == null <==> realm == []
      ensures a != null ==> fresh(a) && a.realm == realm && a.accounts == map[] && a.Valid()
    {
      if realm == [] {
        return null;
      }
      a := new BasicAuth(realm);
    }

    /** httpBasicAuth(realm, user, password): the realm constructor, then addAccount; null when either throws. */
    static method CreateWith(realm: string, user: string, password: string) returns (a: BasicAuth?)
      ensures a == null <==> realm == [] || Added(map[], user, password).None?
      ensures a != null ==> fresh(a) && a.realm == realm && a.accounts == map[user := password] && a.Valid()
    {
      if realm == [] {
        return null;
      }
      a := new BasicAuth(realm);
      var ok := a.AddAccount(user, password);
      if !ok {
        return null;
      }
    }

    /** addAccount: refuses an empty user name or password, otherwise puts the entry. */
    method AddAccount(user: string, password: string) returns (ok: bool)
      modifies this
      ensures ok <==> Added(old(accounts), user, password).Some?
      ensures accounts == Added(old(accounts), user, password).GetOr(old(accounts))
      ensures old(Valid()) ==> Valid()
    {
      if user == [] || password == [] {
        return false;
      }
      accounts := accounts[user := password];
      return true;
    }

    /** validate: refuses an empty user name or password, otherwise compares with the stored password. */
    function Validate(user: string, password: string): (ok: bool)
      reads this
      ensures ok ==> user in accounts && accounts[user] == password
      ensures ok ==> user != [] && password != []
      ensures Valid() ==> (ok <==> user in accounts && accounts[user] == password)
    {
      Check(accounts, user, password)
    }

    /** clone: a new store with the same realm, filled by addAccount from every entry. */
    method Clone() returns (c: BasicAuth)
      requires Valid()
      ensures fresh(c) && c.realm == realm && c.accounts == accounts && c.Valid()
    {
      c := new BasicAuth(realm);
      var todo := accounts.Keys;
      while todo != {}
        invariant todo <= accounts.Keys
        invariant fresh(c) && c.realm == realm && c.Valid()
        invariant c.accounts == map u | u in accounts && u !in todo :: accounts[u]
        decreases todo
      {
        var u :| u in todo;
        var ok := c.AddAccount(u, accounts[u]);
        todo := todo - {u};
      }
    }
  }
}
