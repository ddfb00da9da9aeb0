# In-memory item service

A model of the in-memory backend of the "items" CRUD service
(`deploy_on_EC2/backend/main.py`). The service keeps a module-level list
`items_db` of `{id, name, description}` records, seeded with two entries, and
answers four item routes:

- `GET /api/items` returns the whole list;
- `GET /api/items/{id}` returns the first record with that id, or raises a 404
  "Item not found";
- `POST /api/items` assigns `id = max(existing ids, default 0) + 1`, appends the
  new record and returns it;
- `DELETE /api/items/{id}` raises a 404 when no record has the id, and otherwise
  replaces the list by the records whose id differs.

`items.dfy` (module `Items`) holds the record shapes (`Item`, and `ItemCreate`
whose `description` defaults to `""`), the seed list, and the list operations
the handlers perform, as functions: the largest id, the first record with an
id, and the list without an id. The lemmas about them state the store's
invariant (ids pairwise distinct), that filtering keeps the surviving records
in order, and that ids are reused. `backend.dfy` (module `Backend`) holds the
list as the `items` field of class `ItemStore`: the two read handlers are
functions over it, the two writing handlers are methods that reassign it, and
the 404 is the `NotFound` reply. `SeedScenario` runs create, get, delete, get
and create from the seed state.

Facts about `main.py` that the model makes explicit:

- Ids can be reused (line 60). The next id is one more than the largest id
  present, so after the record with the largest id is deleted the next id is at
  most that id (`Items.RemoveMaxLowersNextId`). It is exactly that id when the
  id is 1 or the id one below it is still present
  (`Items.RemoveMaxReusesIdIff`), as in the seed scenario
  (`Backend.SeedScenario`).
- `description` defaults to the empty string (lines 27-29).
- `name` may be empty: the request shape only requires a string (line 28).

## Model

| member | source | states |
|---|---|---|
| Items.MaxId | deploy_on_EC2/backend/main.py:60 | the result bounds every id from above, is 0 on an empty list and is otherwise the id of some record |
| Items.NextId | deploy_on_EC2/backend/main.py:60 | the new id is larger than every existing id, is 1 on an empty store and is otherwise one more than some existing id |
| Items.Find | deploy_on_EC2/backend/main.py:52 | no result exactly when no record carries the id; a result carries the id, is in the list, and is the record at the first position carrying the id |
| Items.RemoveId | deploy_on_EC2/backend/main.py:72 | the result keeps exactly the records whose id differs, is no longer than the input, and is the input itself when no record carries the id |
| Items.RemoveIdAppend | deploy_on_EC2/backend/main.py:72 | filtering a concatenation is the concatenation of the filtered parts, so the surviving records keep their relative order |
| Items.RemoveIdSpliced | deploy_on_EC2/backend/main.py:72 | with distinct ids, deleting the id of the record at position k yields the list with exactly that position cut out |
| Items.RemoveIdPreservesDistinct | deploy_on_EC2/backend/main.py:72 | filtering keeps ids pairwise distinct |
| Items.FindStored | deploy_on_EC2/backend/main.py:52 | with distinct ids, every stored record is the one found by its own id |
| Items.AppendFresh | deploy_on_EC2/backend/main.py:60-62 | a record appended with an id no record carries is then the one found by its id, and distinct ids stay distinct |
| Items.RemoveMaxLowersNextId | deploy_on_EC2/backend/main.py:60-72 | after the records with the largest id are deleted, the next id assigned is at most that largest id |
| Items.RemoveMaxReusesIdIff | deploy_on_EC2/backend/main.py:60-72 | after the records with the largest id are deleted, the next id assigned equals that id exactly when it is 1 or the id one below it is present |
| Backend.ItemStore.constructor | deploy_on_EC2/backend/main.py:32-35 | the store starts as the two seed records, whose ids are distinct and positive |
| Backend.ItemStore.GetItems | deploy_on_EC2/backend/main.py:46-48 | the whole list is returned as stored, and it has distinct positive ids |
| Backend.ItemStore.GetItem | deploy_on_EC2/backend/main.py:50-56 | 404 exactly when no record has the id; otherwise a stored record with that id, the only one when ids are distinct |
| Backend.ItemStore.Create | deploy_on_EC2/backend/main.py:58-63 | exactly one record is appended at the end with id max + 1 (1 on an empty store) and the given name and description; it is returned, its id is fresh, a lookup by it finds it, and a store with distinct positive ids keeps them |
| Backend.ItemStore.Delete | deploy_on_EC2/backend/main.py:65-73 | an absent id gives 404 and leaves the store unchanged; otherwise the store is the old list without the records carrying the id, the rest in order (with distinct ids: exactly one position cut out), distinct positive ids stay so, and a lookup of the id afterwards is 404 |
| Backend.SeedScenario | deploy_on_EC2/backend/main.py:32-72 | from the seed, creating "Widget" gives id 3 and description "", get finds it, delete succeeds, get is then 404, and the next create reuses id 3 |

## Left out

- The FastAPI application, CORS middleware and uvicorn startup (main.py lines 6-19 and 75-77): framework plumbing with no logic.
- The `root` and `health_check` routes (main.py lines 38-44): constant responses.
- Request validation and JSON serialisation by pydantic: requests are taken as already well-typed, so the 422 reply to a malformed body is not modelled.
- The `async` handlers and any interleaving of requests on the shared list: operations run one at a time.
- The database-backed variant of the service (`deploy-on-ec2/backend`): its id assignment and queries happen inside the database, which is not part of this model.
- The calculator app and the React frontends: HTML templating, floating point and network calls.
