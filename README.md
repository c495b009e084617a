# XFBasicWebClient sync rules, modelled in Dafny

XFBasicWebClient is a small Xamarin.Forms demo. It keeps a local SQLite
table of `Person` records (`Id`, `Name`, `Birthday`) in step with a remote
People Web API. This project models the rules that keep the two stores in
step and proves what they guarantee:

- `Records.dfy`: the `Person` record, and the outcome types used where the C#
  code returns null or throws.
- `LocalStore.dfy`: the `PeopleManager` operations over the local table. The
  table is a class holding a map from `Id` to `Person` plus a scan order.
  Value-level functions (`Rows`, `Reload`, `Upsert`) specify the methods. The
  count-based refresh survives only as commented-out code on the summary
  page, so it is the function `Refresh` over `Reload`, with the lemma
  `RefreshIdempotent` about running it twice.
- `RemoteClient.dfy`: the `WebApiClient` token cache and its per-request
  failure policy. The list call gives null, the create call rethrows, and
  update and delete give `false`. The network is a parameter: every call is
  given what the token endpoint and the API answer. The client records every
  request it sends in a log, so a caller can state which requests were made.
- `App.dfy`: `OnSleep`, the name-diff push made when the app goes to sleep.
  The diff (`RemoteNames`, `Unmatched`, `FirstOrDefault`, `FirstOfEach`,
  `PushList`) is pure. The two posting loops are methods over the client.
- `Detail.dfy`: the detail page. Its constructor turns a missing record into a
  new one, and its Save and Delete buttons write to the stores.

## Model

| member | source | states |
|---|---|---|
| Records.NewPerson | Finish/XFBasicWebClient/XFBasicWebClient/Models/Person.cs:7-17 | a new `Person` has `Id` 0, the value that means "no server id yet" (auto-increment is off) |
| LocalStore.Rows | Finish/XFBasicWebClient/XFBasicWebClient/Models/PeopleManager.cs:84-92 | a scan of a well-formed table yields one record per row in scan order, and a record appears exactly when it is the row stored under its key |
| LocalStore.Localized | Finish/XFBasicWebClient/XFBasicWebClient/Models/PeopleManager.cs:85-89 | the birthday conversion keeps the count and every record's `Id` and `Name` |
| LocalStore.TableOfHoldsExactly | Finish/XFBasicWebClient/XFBasicWebClient/Models/PeopleManager.cs:70-71 | inserting records with distinct keys into an empty table gives a well-formed table with one row per record whose scan is exactly those records |
| LocalStore.Upsert | Finish/XFBasicWebClient/XFBasicWebClient/Models/PeopleManager.cs:100-114 | a nonzero `Id` never fails, keeps the key set and the order, rewrites only the row with that key, and changes nothing when that key is absent; `Id` 0 adds key 0, and fails with a constraint violation exactly when key 0 is already taken; well-formedness is kept |
| LocalStore.Without | Finish/XFBasicWebClient/XFBasicWebClient/Models/PeopleManager.cs:122-129 | removing a key from the scan order keeps exactly the other keys, and keeps them distinct |
| LocalStore.WithoutAppend | Finish/XFBasicWebClient/XFBasicWebClient/Models/PeopleManager.cs:122-129 | deleting a key keeps the other keys in their scan order: taking it out of two runs of keys gives the two shortened runs in turn |
| LocalStore.Reload | Finish/XFBasicWebClient/XFBasicWebClient/Models/PeopleManager.cs:65-74 | the table after DeleteAll and InsertAll is well-formed; with distinct keys it has one row per record and its scan is exactly those records (so the count check that follows succeeds); with a repeated key it is left empty |
| LocalStore.RefreshIdempotent | Finish/XFBasicWebClient/XFBasicWebClient/Views/SummaryPage.xaml.cs:88-90 | running the commented-out count-based refresh a second time with the same remote list changes nothing, whatever the keys |
| LocalStore.Refresh | Finish/XFBasicWebClient/XFBasicWebClient/Views/SummaryPage.xaml.cs:88-90 | equal counts keep the table as it was; differing counts give a well-formed table whose scan is exactly the remote list when its keys are distinct, and an empty table when a key repeats |
| LocalStore.PeopleManager.constructor | Finish/XFBasicWebClient/XFBasicWebClient/Models/PeopleManager.cs:22-43 | a freshly created database has an empty, well-formed table |
| LocalStore.PeopleManager.CheckPersonCount | Finish/XFBasicWebClient/XFBasicWebClient/Models/PeopleManager.cs:50-57 | the result is true exactly when the local row count equals the given count; the table is only read |
| LocalStore.PeopleManager.UpdateLocalData | Finish/XFBasicWebClient/XFBasicWebClient/Models/PeopleManager.cs:65-74 | the table becomes `Reload(people)`: exactly the given records when their keys are distinct; otherwise the transaction rolls back to the emptied table and a constraint violation is raised |
| LocalStore.PeopleManager.GetPeople | Finish/XFBasicWebClient/XFBasicWebClient/Models/PeopleManager.cs:80-94 | the loop returns the scan of the table with every birthday converted, one entry per row in scan order |
| LocalStore.PeopleManager.UpsertPerson | Finish/XFBasicWebClient/XFBasicWebClient/Models/PeopleManager.cs:100-114 | the new table is what `Upsert` gives, or the old table unchanged together with the error `Upsert` reports |
| LocalStore.PeopleManager.DeletePerson | Finish/XFBasicWebClient/XFBasicWebClient/Models/PeopleManager.cs:122-129 | exactly the row keyed `person.Id` is removed; every other row is unchanged, and the scan order loses only that key |
| LocalStore.PeopleManager.DeletePeople | Finish/XFBasicWebClient/XFBasicWebClient/Models/PeopleManager.cs:135-142 | the table is left empty |
| RemoteClient.NextToken | Finish/XFBasicWebClient/XFBasicWebClient/Models/WebApiClient.cs:49-64 | a cached token is kept; from an empty cache a successful fetch stores the returned token and a failed one leaves the cache empty, so the cache ends non-empty exactly when it was non-empty or the fetch returned a non-empty token |
| RemoteClient.Fetched | Finish/XFBasicWebClient/XFBasicWebClient/Models/WebApiClient.cs:49-60 | a call sends one token request exactly when the cache is empty, and none otherwise |
| RemoteClient.TokenAfterSnoc | Finish/XFBasicWebClient/XFBasicWebClient/Models/WebApiClient.cs:49-64 | the token after one more call is what that call makes of the token after the earlier ones |
| RemoteClient.FirstToken | Finish/XFBasicWebClient/XFBasicWebClient/Models/WebApiClient.cs:49-64 | the index of the first token answer that yields a non-empty token; no earlier answer does |
| RemoteClient.CachedTokenIsKept | Finish/XFBasicWebClient/XFBasicWebClient/Models/WebApiClient.cs:47-49 | once a token is cached, no later call fetches a token or changes it |
| RemoteClient.FetchUntilFirstToken | Finish/XFBasicWebClient/XFBasicWebClient/Models/WebApiClient.cs:49-70 | from an empty cache, every call fetches until the first fetch that yields a token and none fetches after it; the token ends non-empty exactly when such a fetch happened, and is then that fetch's token |
| RemoteClient.WebApiClient.constructor | Finish/XFBasicWebClient/XFBasicWebClient/Models/WebApiClient.cs:21-36 | the client starts with no token and no request sent |
| RemoteClient.WebApiClient.Initialize | Finish/XFBasicWebClient/XFBasicWebClient/Models/WebApiClient.cs:43-74 | a token is fetched only while the cache is empty; a successful fetch stores the returned token, and a failed one is swallowed and leaves the cache empty |
| RemoteClient.WebApiClient.GetPeople | Finish/XFBasicWebClient/XFBasicWebClient/Models/WebApiClient.cs:80-105 | `Initialize`, then one GET with the cached token; the remote list on success and null (`None`) on any failure, never an empty list |
| RemoteClient.WebApiClient.PostPerson | Finish/XFBasicWebClient/XFBasicWebClient/Models/WebApiClient.cs:112-141 | `Initialize`, then one POST of the record; the server-assigned id on success, and a rethrown error on any failure |
| RemoteClient.WebApiClient.UpdatePerson | Finish/XFBasicWebClient/XFBasicWebClient/Models/WebApiClient.cs:148-174 | `Initialize`, then one PUT addressed by `person.Id`; true exactly when it succeeded, and it never throws |
| RemoteClient.WebApiClient.DeletePerson | Finish/XFBasicWebClient/XFBasicWebClient/Models/WebApiClient.cs:181-204 | `Initialize`, then one DELETE addressed by `person.Id` only; true exactly when it succeeded, and it never throws |
| App.RemoteNames | Finish/XFBasicWebClient/XFBasicWebClient/App.xaml.cs:44 | the name set holds the name of every remote record, and only names of remote records |
| App.Unmatched | Finish/XFBasicWebClient/XFBasicWebClient/App.xaml.cs:44-45 | a record is in the diff exactly when it is a local record whose name is not among the remote names |
| App.UnmatchedAppend | Finish/XFBasicWebClient/XFBasicWebClient/App.xaml.cs:45 | the `Where` filter keeps local order: filtering two runs of records gives the two filtered runs in turn |
| App.FirstOrDefault | Finish/XFBasicWebClient/XFBasicWebClient/App.xaml.cs:49 | null exactly when no record has the name; otherwise a record with that name that no earlier record's name matches |
| App.FirstOrDefaultFinds | Finish/XFBasicWebClient/XFBasicWebClient/App.xaml.cs:49 | looking up the name of a local record never gives null |
| App.FirstOfEach | Finish/XFBasicWebClient/XFBasicWebClient/App.xaml.cs:47-51 | one post per diff entry, in diff order; the `i`-th is what `FirstOrDefault` gives for the `i`-th entry's name |
| App.FirstOfEachFromLocal | Finish/XFBasicWebClient/XFBasicWebClient/App.xaml.cs:47-49 | every record picked for a diff entry is a local record with that entry's name |
| App.PushList | Finish/XFBasicWebClient/XFBasicWebClient/App.xaml.cs:33-51 | every pushed record is a local record whose name is not among the remote names |
| App.EmptyRemotePostsAll | Finish/XFBasicWebClient/XFBasicWebClient/App.xaml.cs:33-39 | with an empty remote list, the pushes are the local records, each once, in local order |
| App.PushedNamesAreMissingNames | Finish/XFBasicWebClient/XFBasicWebClient/App.xaml.cs:44-51 | the set of pushed names equals the set of local names the server does not know |
| App.FirstOfEachCount | Finish/XFBasicWebClient/XFBasicWebClient/App.xaml.cs:47-51 | a record is posted once per diff entry with its name when it is the first local record with that name, and never otherwise |
| App.UnmatchedNameCount | Finish/XFBasicWebClient/XFBasicWebClient/App.xaml.cs:45 | the diff holds every local record of an unknown name, and none of a known one |
| App.DuplicateNamesPostFirst | Finish/XFBasicWebClient/XFBasicWebClient/App.xaml.cs:44-51 | with a non-empty remote list, the first local record of an unknown name is posted as many times as local records carry that name, and the others never are |
| App.DuplicateNameExample | Finish/XFBasicWebClient/XFBasicWebClient/App.xaml.cs:33-51 | two local records named "Ann" against a server knowing only "Bob": the first is posted twice and the second never; against an empty server, each is posted once |
| App.PushThenNothingLeft | Finish/XFBasicWebClient/XFBasicWebClient/App.xaml.cs:44-51 | once the server knows every pushed name, the next push posts nothing |
| App.Attempted | Finish/XFBasicWebClient/XFBasicWebClient/App.xaml.cs:38 | of `n` planned posts, all are sent when all succeed; otherwise the sent ones are those up to and including the first failure, every earlier one having succeeded |
| App.PostAuths | Finish/XFBasicWebClient/XFBasicWebClient/App.xaml.cs:38 | the token answers met by the first `n` posts, one per post, in order |
| App.AttemptedStopsAtFailure | Finish/XFBasicWebClient/XFBasicWebClient/App.xaml.cs:36-51 | when post `i` is the first to fail, exactly `i + 1` posts are sent and the run does not complete |
| App.PostedAppend | Finish/XFBasicWebClient/XFBasicWebClient/App.xaml.cs:36-51 | the records posted by a log are those posted by its two halves, in order |
| App.PostedOneCall | Finish/XFBasicWebClient/XFBasicWebClient/Models/WebApiClient.cs:112-141 | one `PostPersonAsync` call adds its one record to the posted ones, and no update or delete |
| App.OpeningGet | Finish/XFBasicWebClient/XFBasicWebClient/App.xaml.cs:31 | the GET at the start of OnSleep only extends the log, and adds no post and no write |
| App.JoinRuns | Finish/XFBasicWebClient/XFBasicWebClient/App.xaml.cs:31-51 | a log built in two stages keeps the log before them, posts what the two stages post in order, and writes nothing exactly when neither stage does |
| App.PostOne | Finish/XFBasicWebClient/XFBasicWebClient/App.xaml.cs:50 | one `PostPersonAsync` within a run: the log keeps what it had, gains the one record posted and no write, the token moves by that call's token answer, and the reply is the server id or the rethrown error |
| App.PostEach | Finish/XFBasicWebClient/XFBasicWebClient/App.xaml.cs:36-39 | the first loop keeps the earlier log and posts the local records in order, up to and including the first failure, which is rethrown; it sends no update or delete; the token ends as the token answers of the posts sent make it |
| App.PostFirstOfEach | Finish/XFBasicWebClient/XFBasicWebClient/App.xaml.cs:47-51 | the second loop keeps the earlier log and posts `FirstOfEach(local, diff)` in order, up to and including the first failure, which is rethrown; it sends no update or delete; the token ends as the token answers of the posts sent make it |
| App.OnSleep | Finish/XFBasicWebClient/XFBasicWebClient/App.xaml.cs:27-53 | leaves the local table unchanged, keeps the earlier log and sends no remote update or delete; a failed GET ends in a null-reference error with nothing posted; otherwise it posts `PushList` of the local scan and the remote list, stopping after the first failed post, and completes exactly when every post succeeded; in both cases the final token is the one the GET's and the posts' token answers make |
| Detail.SavedRecordIsNeverInserted | Finish/XFBasicWebClient/XFBasicWebClient/Views/DetailPage.xaml.cs:36-41 | a record saved under a nonzero server id takes the local Update branch: accepted, with no key added or moved, and no change at all when no row has that key |
| Detail.DetailPage.constructor | Finish/XFBasicWebClient/XFBasicWebClient/Views/DetailPage.xaml.cs:13-24 | the page shows the given record, or a new one with `Id` 0 when none is given |
| Detail.DetailPage.Save | Finish/XFBasicWebClient/XFBasicWebClient/Views/DetailPage.xaml.cs:27-50 | `Id` 0: one POST first; a failure is rethrown with the table unchanged; otherwise the record is upserted under the returned id, and a nonzero id leaves the key set and order unchanged. Nonzero `Id`: one PUT of the record, then the same record upserted, whatever the PUT answered |
| Detail.DetailPage.Delete | Finish/XFBasicWebClient/XFBasicWebClient/Views/DetailPage.xaml.cs:53-57 | one remote DELETE of the shown record's id, and the local table is untouched |

## Left out

- HTTP transport, status codes, the `/Token` form body and the bearer header are not modelled. Every call is given the answer of the token endpoint and of the API as a success or failure value. A request is recorded with the token it carries.
- JSON (de)serialization and the `JsonProperty` names are not modelled, because they belong to a foreign library. A response body that decodes to null is a `Failure` answer: the source then returns null (GET), rethrows (POST) or swallows the error (token fetch), exactly as on a failed request.
- `CreateConnectionAsync` is not modelled, because it is file I/O (the PCLStorage folder and file, the SQLite connection and `CreateTable`). The constructor of `PeopleManager` stands for a fresh database.
- The `lock (locker)` in `Initialize` and the `Task.WhenAll` overlap in Save are not modelled, because concurrency is out of scope. Both are sequential in the model: the remote update is issued before the local upsert.
- `OnSleep` is `async void`, and its exceptions are lost to the caller. The model returns them as an `Outcome` instead.
- The `Debug.WriteLine` calls in the catch blocks of `WebApiClient` (lines 69, 100, 137, 169 and 199) are not modelled, because they only write to the debug output; the failures they log are modelled.
- `DateTimeOffset.ToLocalTime()` is a parameter `toLocalTime` of the list operation, and the birthday is opaque.
- The scan order of a SQLite table is the rowid order, which for this table is ascending `Id`. Here it is an insertion order instead: `InsertAll` lays the keys out in the order of the given list, a new key 0 goes last, and a delete removes its key. The contracts below state the scan in the model's order; they are exact about which records are scanned but not about their order in SQLite:
- LocalStore.TableOfHoldsExactly: the scan equals the inserted records in their given order; SQLite would give them in ascending `Id`.
- LocalStore.Reload: the scan after a reload equals the given list in its order; in SQLite it is that list sorted by `Id`.
- LocalStore.Refresh: the scan after a refresh equals the remote list in its order; in SQLite it is that list sorted by `Id`.
- LocalStore.Upsert: an inserted key 0 is appended last to the scan order; in SQLite it is scanned before every positive key.
- LocalStore.PeopleManager.GetPeople: the records are returned in the model's scan order, not in ascending `Id`.
- App.OnSleep: which record of a repeated unknown name is "first", and the order of the posts, follow the model's scan order of the local table; in SQLite they follow ascending `Id`.
- SQLite's `Update` of a record whose key matches no row changes nothing, and its `Insert` of a taken primary key raises a constraint error. Both are modelled as such. Other SQLite errors are not modelled.
- C# null strings (the cached token, the name of `new Person()`) are the empty string. `string.IsNullOrEmpty(Token)` becomes a test for the empty string.
- A null collection passed to `CheckPersonCountAsync` or `UpdateLocalDataAsync`, as the commented-out refresh would do after a failed GET, is not modelled. The refresh lemmas take the remote list of a successful GET.
- The count-based refresh exists only as commented-out code. It is modelled as a function over the specifications of the two primitives, not as a method that calls them.
- The Xamarin UI is not modelled: pages, bindings, the view model's `IsBusy` and list refills, navigation, and `int.Parse` of the form fields. Save is given the record the form parses to.
- The hard-coded credentials and the singleton `Instance` wiring are not modelled. The client object is passed to the operations that use it.
