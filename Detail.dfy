/** The detail page: it shows one record, and its two buttons save the form
    to both stores or delete the shown record remotely. The form's text
    fields and the navigation back are not modelled: Save is given the
    record the form parses to. */
module Detail {
  import opened Records
  import LocalStore
  import opened RemoteClient

  /** A record saved under a nonzero id the server assigned takes the
      local Update branch: it is accepted, and no key is added or moved. When
      no row has that key, the table is left as it was. */
  lemma SavedRecordIsNeverInserted(t: LocalStore.Table, form: Person, id: int)
    requires id != 0
    ensures LocalStore.Upsert(t, form.(Id := id)).Ok?
    ensures LocalStore.Upsert(t, form.(Id := id)).value.rows.Keys == t.rows.Keys
    ensures LocalStore.Upsert(t, form.(Id := id)).value.order == t.order
    ensures id !in t.rows ==> LocalStore.Upsert(t, form.(Id := id)).value == t
  {
  }

  class DetailPage {
    /** The record the page is bound to. */
    var person: Person

    /** The page for `given`, or for a new record when none is given. */
    constructor (given: Option<Person>)
      ensures person == if given.Some? then given.value else NewPerson()
      ensures given.None? ==> person.Id == 0
    {
      if given.Some? {
        person := given.value;
      } else {
        person := NewPerson();
      }
    }

    /** The Save button. A record without an id is posted first and, only
        once the post returned, upserted locally under the id the server
        assigned; a failed post is rethrown before any local write. A record
        with an id is updated remotely and upserted locally, whatever the
        remote update answered. `post` and `put` are what the network answers
        to the POST and to the PUT. */
    method Save(form: Person, db: LocalStore.PeopleManager, client: WebApiClient,
                post: Exchange<int>, put: Exchange<()>)
      returns (r: Outcome<Fault>)
      requires db.Valid()
      modifies db, client
      ensures db.Valid()
      ensures form.Id == 0 ==>
                && client.token == NextToken(old(client.token), post.auth)
                && client.log == old(client.log) + Fetched(old(client.token)) + [Post(client.token, form)]
      ensures form.Id == 0 && post.reply.Failure? ==>
                r == Fail(RemoteError) && db.Snapshot() == old(db.Snapshot())
      ensures form.Id == 0 && post.reply.Success? ==>
                match LocalStore.Upsert(old(db.Snapshot()), form.(Id := post.reply.value))
                case Ok(t) => r == Pass && db.Snapshot() == t
                case Err(e) => r == Fail(e) && db.Snapshot() == old(db.Snapshot())
      ensures form.Id == 0 && post.reply.Success? && post.reply.value != 0 ==>
                r == Pass && db.rows.Keys == old(db.rows.Keys) && db.order == old(db.order)
      ensures form.Id != 0 ==>
                && client.token == NextToken(old(client.token), put.auth)
                && client.log == old(client.log) + Fetched(old(client.token)) + [Put(client.token, form.Id, form)]
                && r == Pass
                && db.Snapshot() == LocalStore.Upsert(old(db.Snapshot()), form).value
    {
      if form.Id == 0 {
        var id := client.PostPerson(form, post);
        if id.Err? {
          return Fail(id.error);
        }
        var saved := form.(Id := id.value);
        r := db.UpsertPerson(saved);
      } else {
        var webUpdate := client.UpdatePerson(form, put);
        r := db.UpsertPerson(form);
      }
    }

    /** The Delete button: a remote delete of the shown record's id; the
        local table is not touched. */
    method Delete(db: LocalStore.PeopleManager, client: WebApiClient, ex: Exchange<()>)
      modifies client
      ensures unchanged(db)
      ensures client.token == NextToken(old(client.token), ex.auth)
      ensures client.log == old(client.log) + Fetched(old(client.token)) + [RemoteClient.Delete(client.token, person.Id)]
    {
      var ok := client.DeletePerson(person, ex);
    }
  }
}
