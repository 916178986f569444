/** The four tables, the constraints their migrations declare, and the transaction of a request. */
module Storage {
  import opened Bytes

  type Id = Str

  datatype Group = Group(owner: Id, name: Str, description: Str)

  datatype Membership = Membership(group: Id, subject: Id)

  /** Mappings and conditions as their columns hold them; empty conditions mean none. */
  datatype Issuer = Issuer(owner: Id, name: Str, uri: Str, jwksUri: Str, mappings: Str, conditions: Str)

  datatype User = User(name: Str, email: Str, sub: Str, issuer: Id)

  /** Tables as maps from primary keys; group_members is all key. */
  datatype Store = Store(
    groups: map<Id, Group>, members: set<Membership>, issuers: map<Id, Issuer>, users: map<Id, User>)

  const EMPTY := Store(map[], {}, map[], map[])

  predicate GroupTablesValid(s: Store) {
    && (forall m | m in s.members :: m.group in s.groups)
    && (forall g | g in s.groups :: s.groups[g].name != [])
    && (forall g, h | g in s.groups && h in s.groups ::
          s.groups[g].owner == s.groups[h].owner && s.groups[g].name == s.groups[h].name ==> g == h)
  }

  predicate UserTablesValid(s: Store) {
    && (forall u | u in s.users :: s.users[u].issuer in s.issuers)
    && (forall u, v | u in s.users && v in s.users ::
          s.users[u].issuer == s.users[v].issuer && s.users[u].sub == s.users[v].sub ==> u == v)
    && (forall i, j | i in s.issuers && j in s.issuers :: s.issuers[i].uri == s.issuers[j].uri ==> i == j)
  }

  predicate Valid(s: Store) {
    GroupTablesValid(s) && UserTablesValid(s)
  }

  /** The transaction carried by a context: none, running with a private view, or ended. */
  datatype Tx = NoTx | Open(view: Store) | Ended

  /** A database handle together with the current context's transaction. */
  class Database {
    var committed: Store
    var tx: Tx

    constructor (s: Store)
      ensures committed == s && tx == NoTx
    {
      committed, tx := s, NoTx;
    }

    /** A new context; whatever transaction the last one held is out of reach. */
    method BeginContext(works: bool) returns (err: bool)
      modifies this`tx
      ensures err == !works
      ensures tx == if works then Open(committed) else NoTx
    {
      err := !works;
      tx := if works then Open(committed) else NoTx;
    }

    /** Ends the transaction either way; only a commit that works publishes the view. */
    method CommitContext(works: bool) returns (err: bool)
      modifies this
      ensures err == !(old(tx).Open? && works)
      ensures committed == if old(tx).Open? && works then old(tx).view else old(committed)
      ensures tx == if old(tx).Open? then Ended else old(tx)
    {
      if !tx.Open? {
        return true;
      }
      if works {
        committed := tx.view;
      }
      tx := Ended;
      err := !works;
    }

    method RollbackContext(works: bool) returns (err: bool)
      modifies this`tx
      ensures err == !(old(tx).Open? && works)
      ensures tx == if old(tx).Open? then Ended else old(tx)
    {
      if !tx.Open? {
        return true;
      }
      tx := Ended;
      err := !works;
    }
  }
}
