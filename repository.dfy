/**
 * The persistence collaborator, as the member service consumes it: an
 * in-memory table keyed by id, the order in which findAll reports records,
 * and uninterpreted answers for the queries whose implementation is not part
 * of this model.
 */
module Repository {

  import opened Wrappers
  import opened Model

  /** A write the service asked the repository to perform. */
  datatype StoreCall = Created(member: Member) | Updated(member: Member)

  class MemberRepository {
    /** The stored records, keyed by id. */
    var table: map<string, Member>
    /** The ids of the stored records, in the order findAll returns them. */
    var order: seq<string>
    /** Every write requested so far, oldest first. */
    ghost var calls: seq<StoreCall>

    /** checkEmail(email), which may depend on what is stored; email may be null. */
    const checkEmail: (map<string, Member>, Option<string>) -> bool
    /** loginCredentialCheck(email, password): the matching member, or null. */
    const loginCredentialCheck: (map<string, Member>, Option<string>, Option<string>) -> Option<Member>
    /** The success flag update(member) reports. */
    const updateSucceeds: (map<string, Member>, Member) -> bool

    /** Every stored record is listed exactly once and is stored under its own id. */
    ghost predicate Valid()
      reads this
    {
      && (forall i :: 0 <= i < |order| ==> order[i] in table)
      && (forall k :: k in table ==> k in order)
      && (forall i, j :: 0 <= i < j < |order| ==> order[i] != order[j])
      && (forall k :: k in table ==> table[k].id == k)
    }

    constructor (
      checkEmail: (map<string, Member>, Option<string>) -> bool,
      loginCredentialCheck: (map<string, Member>, Option<string>, Option<string>) -> Option<Member>,
      updateSucceeds: (map<string, Member>, Member) -> bool)
      ensures Valid()
      ensures table == map[] && order == [] && calls == []
      ensures this.checkEmail == checkEmail
      ensures this.loginCredentialCheck == loginCredentialCheck
      ensures this.updateSucceeds == updateSucceeds
    {
      table, order, calls := map[], [], [];
      this.checkEmail := checkEmail;
      this.loginCredentialCheck := loginCredentialCheck;
      this.updateSucceeds := updateSucceeds;
    }

    /** findById(key): the record stored under key, or null; no record is stored under a null key. */
    function FindById(key: Option<string>): (r: Option<Member>)
      reads this
      ensures r.Some? <==> key.Some? && key.value in table
      ensures r.Some? ==> r.value == table[key.value]
    {
      if key.Some? && key.value in table then Some(table[key.value]) else None
    }

    /** findAll(): every stored record, in listing order. */
    function FindAll(): (rows: seq<Member>)
      reads this
      requires Valid()
      ensures |rows| == |order|
      ensures forall i :: 0 <= i < |rows| ==> rows[i].id == order[i] && rows[i] == table[order[i]]
    {
      var t, o := table, order;
      seq(|o|, i requires 0 <= i < |o| => t[o[i]])
    }

    /** create(member): stores the record under its id and returns it. */
    method Create(m: Member) returns (created: Member)
      requires Valid()
      modifies this
      ensures Valid()
      ensures table == old(table)[m.id := m]
      ensures order == if m.id in old(table) then old(order) else old(order) + [m.id]
      ensures calls == old(calls) + [Created(m)]
      ensures created == m
    {
      if m.id !in table {
        order := order + [m.id];
      }
      table := table[m.id := m];
      calls := calls + [Created(m)];
      created := m;
    }

    /** update(member): replaces the stored record when the repository reports success. */
    method Update(m: Member) returns (ok: bool)
      requires Valid()
      requires m.id in table
      modifies this
      ensures Valid()
      ensures ok == updateSucceeds(old(table), m)
      ensures table == if ok then old(table)[m.id := m] else old(table)
      ensures order == old(order)
      ensures calls == old(calls) + [Updated(m)]
    {
      ok := updateSucceeds(table, m);
      if ok {
        table := table[m.id := m];
      }
      calls := calls + [Updated(m)];
    }
  }
}
