# Book catalogue service — Dafny model

This project models the core of a small book catalogue web service (`main.py`). The core is an in-memory,
insertion-ordered list of book records (`livros`) and an in-memory log (`log_memory`). Six request
handlers act on the list:
- a paginated list;
- lookup by id (first match wins);
- a substring search on title and author;
- create, which rejects a duplicate id;
- update, which replaces in place;
- delete.

Each handler logs the request at INFO level. On each failure path it logs one more WARNING or ERROR entry
and then raises a 404 or 400. A health endpoint reports the size of both lists.

Layout:
- `outcomes.dfy` (`Outcomes`): `Option`, the two HTTP errors with their status codes, and `Outcome`. An
  `Outcome` is a handler's return value or the exception it raised.
- `books.dfy` (`Books`): the `Livro` record and its field constraints. `Validate` models the check on the
  request body, answered with 422. It also has the id predicates and `FirstIndex`, the position where every
  handler's linear scan stops.
- `queries.dfy` (`Queries`): the pure handlers as functions of the store contents. These are the slice
  (Python's slice rules, negative bounds included), the paginated list, the substring test, and the
  search filter. It also has `list.remove`, with lemmas on order, multiplicity and id uniqueness.
- `logs.dfy` (`Logs`): log levels with their numeric severities, the root threshold (INFO), and log
  entries abstracted to a level and the event they report.
- `service.dfy` (`Service`): class `Api`, which holds the two module-level lists as `seq` fields. It has one
  method per handler, plus the memory log handler's `emit`. Create, update, delete and lookup keep the
  source's loops. Each method's postcondition gives the result and the whole new state: the store, and the
  exact entries appended to the log. `DuneScenario` is a client that walks one record through its life
  cycle, using only these contracts.

Quirks kept as the code has them:
- Update does not check that the replacement's id equals the path id. So id uniqueness survives an update
  only when the replacement keeps the id or uses a fresh one (`ReplaceKeepsUnique`). Any replacement that
  carries another record's id breaks it (`ReplaceCanDuplicateIds`, `ReplaceUniqueIff`). Uniqueness is
  therefore not an invariant of `Api`. Only field validity is.
- Listing an empty store is a 404 whatever `skip` and `limit` are. On a non-empty store, a `skip` past the
  end gives an empty page.
- An empty or absent search filter imposes no constraint. Matching is case-sensitive containment.
- Delete calls `list.remove` on the first record with the id. That removes the same position, because an
  earlier equal record would have matched first (`RemoveDropsFirstMatch`). Without unique ids, a later
  record with the same id survives.
- `/logs` on an empty log first logs a warning and then answers 404. So the log is never empty after a
  `/logs` request.

Where the service's own text and its code differ, the model follows the code. The homepage lists the
search as `/livros/buscar (GET)` (main.py:263). But the search handler is declared after `/livros/{id}`,
so over HTTP the id route shadows it. The model treats search as a direct call.

## Model

| member | source | states |
|---|---|---|
| Books.Validate | main.py:58-61 | a body is accepted iff id > 0 and title and author are non-empty; the accepted record carries exactly those fields; a rejection names exactly the fields that break their constraint |
| Books.FirstIndex | main.py:76-78 | the scan finds nothing iff no record has the id; otherwise it stops at a position holding the id with no earlier record holding it |
| Books.FirstIndexIsOnlyIndex | main.py:94-97 | with unique ids, the first record with an id is the only one |
| Queries.SliceBound | main.py:71 | a slice bound is clamped into 0..n, and a negative bound counts from the end |
| Queries.Slice | main.py:71 | a slice holds exactly the elements between the two clamped bounds: its length is hi-lo when lo < hi and 0 otherwise, and element k of the slice is element lo+k of the list |
| Queries.Page | main.py:65-71 | 404 iff the store is empty; for skip, limit >= 0 the page is livros[min(skip,n)..min(skip+limit,n)], of length min(limit, n-skip), and empty when skip >= n |
| Queries.IsSubstringIffOccurs | main.py:85 | the containment test holds iff the filter occurs at some position of the field |
| Queries.Filter | main.py:85 | the result is no longer than the store; every kept record is in the store and matches; every matching record is kept |
| Queries.Search | main.py:82-89 | 404 iff no record matches; otherwise the non-empty list of matching records |
| Queries.FilterAppend | main.py:85 | filtering preserves store order: the filter of a concatenation is the concatenation of the filters |
| Queries.FilterCount | main.py:85 | each matching record is kept as many times as the store holds it, and every other record is dropped |
| Queries.InactiveFiltersKeepAll | main.py:85-88 | with no title or author filter (absent or empty), the search returns the whole store, or 404 when it is empty |
| Queries.TitleSearchIgnoresAuthor | main.py:85 | with only a title filter, a record is kept iff the filter occurs in its title, whatever its author |
| Queries.ListRemove | main.py:116 | removing a present record shortens the list by one, and the result is the list without the position of the first record equal to it |
| Queries.ListRemoveFirst | main.py:116 | whichever position holds the first record equal to x is exactly the one list.remove(x) drops |
| Queries.RemoveDropsFirstMatch | main.py:114-116 | removing the first record with the id drops exactly that position |
| Queries.RemoveAtShape | main.py:116 | after removal, records before the position stay put, later ones shift down by one, and exactly one copy of the removed record is gone |
| Queries.AppendFresh | main.py:94-98 | appending a record with a fresh id keeps ids unique, and a lookup of that id then finds the appended position |
| Queries.ReplaceKeepsUnique | main.py:104-106 | a replacement keeps ids unique when it keeps the replaced id or carries one the store does not hold |
| Queries.ReplaceCanDuplicateIds | main.py:105-106 | a replacement carrying another record's id leaves two records with one id |
| Queries.ReplaceUniqueIff | main.py:104-106 | on a store with unique ids, a replacement keeps them unique iff it keeps the replaced id or carries one the store does not hold |
| Queries.RemoveKeepsUnique | main.py:114-117 | deleting keeps ids unique, and with unique ids no record with the deleted id remains |
| Service.DeleteFirstMatch | main.py:114-117 | removing the first record with the id through list.remove drops that position, shortens the store by one, keeps every record valid, and with unique ids keeps them unique and leaves the id absent |
| Service.Api.constructor | main.py:63 | the service starts with an empty store and an empty log |
| Service.Api.Emit | main.py:40-43 | the memory handler appends exactly one entry to the log |
| Service.Api.Log | main.py:45-54 | a logging call reaches the memory log iff its level is at least the root level INFO |
| Service.Api.ListarLivros | main.py:65-71 | answers Page(livros, skip, limit), leaves the store unchanged, and appends one INFO entry, plus a WARNING when the store is empty |
| Service.Api.ListarLivroPorId | main.py:73-80 | 404 iff no record has the id; otherwise the first record with it; store unchanged; INFO, plus ERROR on 404 |
| Service.Api.BuscarLivros | main.py:82-89 | answers Search(livros, titulo, autor), leaves the store unchanged, and appends INFO, plus WARNING when nothing matches |
| Service.Api.AdicionarLivro | main.py:91-99 | 400 with the store unchanged iff the id is taken; otherwise the record is appended at the end, where a lookup finds it; uniqueness kept; INFO, plus ERROR on 400 |
| Service.Api.AtualizarLivro | main.py:101-109 | 404 with the store unchanged iff the id is absent; otherwise exactly the first matching position is replaced and the length is kept; on a store with unique ids, uniqueness is kept iff the replacement's id is the path id or fresh; INFO, plus ERROR on 404 |
| Service.Api.DeletarLivro | main.py:111-119 | 404 with the store unchanged iff the id is absent; otherwise exactly the first matching position is removed, the length drops by one and the others keep their order; with unique ids the id is gone; INFO, plus ERROR on 404 |
| Service.Api.Health | main.py:121-128 | reports status "ok", the number of records and the number of log entries |
| Service.Api.AcessarLogs | main.py:130-134 | 404 iff the log was empty, and the log then holds only the WARNING; otherwise returns the log unchanged |
| Service.Api.Homepage | main.py:196-198 | a homepage visit appends one INFO entry |

## Left out

- HTTP routing, path and query parsing, and pydantic's type coercion. Handlers are direct calls, and a record reaches create or update only when it is valid (`Validate`).
- The Prometheus middleware, the `/metrics` endpoint and its IP allow-list. These are calls into a foreign library, registered on an `app` object that is later replaced.
- The HTML that `/logs` and `/` build. `AcessarLogs` returns the entries themselves, and `Homepage` models only its log entry.
- Log formatting, timestamps and the console stream handler. A log entry is modelled as its level and the event it reports.
- Response bodies. Create and update answer with the record itself rather than the message-and-record object, and delete answers with the deleted id rather than its confirmation message.
- Concurrency. The source has no locking, and all calls are treated as sequential.
- A bound on the log. The source has none, so neither does the model.
