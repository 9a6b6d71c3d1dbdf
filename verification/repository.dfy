/** The storage port the message logic calls. Its implementation is not
    part of this model; what is modelled is the contract the logic relies
    on, over a finite map from (organization id, message id) to message. */
module Repository {
  import opened Optional
  import opened Models

  /** How the repository addresses a message: (organizationId, id). */
  type Key = (Guid, Guid)

  /** Every stored message sits under its own organization id and id. */
  ghost predicate KeysAgree(m: map<Key, Message>)
  {
    forall k :: k in m ==> m[k].organizationId == k.0 && m[k].id == k.1
  }

  /** The persisted message collection. */
  type Store = s: map<Key, Message> | KeysAgree(s) witness map[]

  /** What a repository (or logic) call answers, and the store after it. */
  datatype Reply<T> = Reply(value: T, store: Store)

  /** Some message of `org` has exactly (ordinal, case-sensitive) this title. */
  ghost predicate TitleInUse(s: Store, org: Guid, title: string)
  {
    exists k :: k in s && k.0 == org && s[k].title == Some(title)
  }

  /** No two messages of one organization share a (non-null) title. Null
      titles never match a title lookup, so they cannot clash. */
  ghost predicate TitlesUnique(s: Store)
  {
    forall k1, k2 :: k1 in s && k2 in s && k1 != k2 && k1.0 == k2.0 && s[k1].title.Some? ==> s[k1].title != s[k2].title
  }

  /** Every lookup by id within `org` answers the same in `s` and `s'`. */
  ghost predicate SameOrganization(s: Store, s': Store, org: Guid)
  {
    forall id :: GetById(s, org, id) == GetById(s', org, id)
  }

  /** `GetAllByOrganizationAsync`: the messages of `org`, and no others. */
  function GetAllByOrganization(s: Store, org: Guid): (r: set<Message>)
    ensures forall m :: m in r ==> m.organizationId == org && (org, m.id) in s && s[(org, m.id)] == m
    ensures forall id :: (org, id) in s ==> s[(org, id)] in r
  {
    set k | k in s && k.0 == org :: s[k]
  }

  /** `GetByIdAsync`: absent when the id is unknown or belongs to another
      organization. */
  function GetById(s: Store, org: Guid, id: Guid): (r: Option<Message>)
    ensures r.Some? <==> (org, id) in s
    ensures r.Some? ==> r.value.organizationId == org && r.value.id == id && r.value == s[(org, id)]
  {
    if (org, id) in s then Some(s[(org, id)]) else None
  }

  /** `m` is the smallest element of `ids`. */
  predicate IsLeast(m: Guid, ids: set<Guid>)
  {
    m in ids && forall j :: j in ids ==> m <= j
  }

  /** The smallest id of a non-empty set. */
  function Least(ids: set<Guid>): (m: Guid)
    requires ids != {}
    ensures m in ids
    ensures forall j :: j in ids ==> m <= j
  {
    LeastExists(ids);
    var m :| IsLeast(m, ids);
    m
  }

  lemma {:induction false} LeastExists(ids: set<Guid>)
    requires ids != {}
    ensures exists m :: IsLeast(m, ids)
  {
    var x :| x in ids;
    var rest := ids - {x};
    if rest == {} {
      forall j | j in ids
        ensures x <= j
      {
        assert j !in rest;
      }
      assert IsLeast(x, ids);
    } else {
      LeastExists(rest);
      var m :| IsLeast(m, rest);
      var least := if x < m then x else m;
      forall j | j in ids
        ensures least <= j
      {
        if j != x {
          assert j in rest;
        }
      }
      assert IsLeast(least, ids);
    }
  }

  /** `GetByTitleAsync`: some message of `org` with exactly this title, or
      absent when there is none. Which one is answered when several match
      is not specified; this model answers the one with the least id. */
  function GetByTitle(s: Store, org: Guid, title: string): (r: Option<Message>)
    ensures r.Some? <==> TitleInUse(s, org, title)
    ensures r.Some? ==> r.value.organizationId == org && r.value.title == Some(title)
    ensures r.Some? ==> GetById(s, org, r.value.id) == r
  {
    var ids := set k | k in s && k.0 == org && s[k].title == Some(title) :: k.1;
    if ids == {} then
      assert forall k :: k in s && k.0 == org && s[k].title == Some(title) ==> k.1 in ids;
      None
    else
      var id := Least(ids);
      assert (org, id) in s;
      Some(s[(org, id)])
  }

  /** `CreateAsync`: stores a message under an id not yet in use and
      answers the stored value. */
  function Create(s: Store, m: Message): (r: Reply<Message>)
    requires (m.organizationId, m.id) !in s
    ensures r.value == m
    ensures GetById(r.store, m.organizationId, m.id) == Some(m)
    ensures r.store.Keys == s.Keys + {(m.organizationId, m.id)}
    ensures forall k :: k in s ==> r.store[k] == s[k]
  {
    Reply(m, s[(m.organizationId, m.id) := m])
  }

  /** `UpdateAsync`: replaces the stored message with the same organization
      id and id; absent, with nothing written, when there is none. */
  function Update(s: Store, m: Message): (r: Reply<Option<Message>>)
    ensures r.value.Some? <==> (m.organizationId, m.id) in s
    ensures r.value.None? ==> r.store == s
    ensures r.value.Some? ==> r.value.value == m && GetById(r.store, m.organizationId, m.id) == Some(m)
    ensures r.store.Keys == s.Keys
    ensures forall k :: k in s && k != (m.organizationId, m.id) ==> r.store[k] == s[k]
  {
    var key := (m.organizationId, m.id);
    if key in s then Reply(Some(m), s[key := m]) else Reply(None, s)
  }

  /** `DeleteAsync`: removes the message if present and says whether it did. */
  function Delete(s: Store, org: Guid, id: Guid): (r: Reply<bool>)
    ensures r.value <==> (org, id) in s
    ensures GetById(r.store, org, id) == None
    ensures r.store.Keys == s.Keys - {(org, id)}
    ensures forall k :: k in r.store ==> r.store[k] == s[k]
  {
    Reply((org, id) in s, s - {(org, id)})
  }
}
