# Phishing blocklist: a Dafny model

This project models the core of a phishing-protection system. That core has two parts.

The first part is the HTTP API. It keeps a blocklist table of URLs, each row holding an
id, a URL and a creation time. Its requests are:

- list the table;
- add a URL, which rejects a missing or empty URL and a URL already present;
- delete a row by id, which answers "not found" for an unknown id;
- check a URL, which answers blocked, flagged by the model, or safe.

The check endpoint can also consult an optional trained classifier. It does so only when
the URL is not in the table, and it scores the URL's feature vector, which
`extract_features` computes.

The second part is the browser extension. It turns the API's blocklist into
declarativeNetRequest blocking rules.

Files:

- `wrappers.dfy`: `Option`.
- `features.dfy` (module `Features`): `extract_features` and the two searches it uses.
- `blocklist.dfy` (module `Blocklist`): the table row, the lookups the queries perform, and
  class `Store`, which holds the table as a `seq<Entry>`. Add and delete are methods that
  update the table in place. List and check are functions that only read it.
- `rules.dfy` (module `Rules`): the mapping from blocklist entries to rules and the
  rule-id list, together with a defect in how the extension reads the API's reply.

Modelling choices:

- The request's `url` field is an `Option<string>`. `None` is an absent field. The source's
  `not url` test is `Missing`: the field is absent or is the empty string.
- URL matching is exact string equality, as in the source. No normalisation is applied.
- A new row's id follows the storage engine's rule for an unset integer primary key: one
  more than the largest id in the table, or 1 when the table is empty. The model promises
  only that this id differs from every current id. Ids of deleted rows can come back.
- `added_on` is a `Timestamp` that the caller passes in as `now`. The store never reads it
  or changes it.
- The classifier is `NoClassifier` or `Model(predict)`. A URL is flagged when `predict`
  returns 1 on its feature vector. In the source this branch is commented out, so the code
  as it runs behaves like `NoClassifier`.
- `|url|` counts Unicode scalar values, as Python's `len` counts code points.

## Model

| member | source | states |
|---|---|---|
| `Features.Occurs` | apis/app.py:106 | true exactly when the pattern occurs at some position of the string (both directions) |
| `Features.HasDigit` | apis/app.py:107 | true exactly when some character of the string is a digit |
| `Features.ExtractFeatures` | apis/app.py:102-109 | the vector has length 3; feature 0 is the URL's length; feature 1 is 1 exactly when "https://" occurs anywhere in the URL; feature 2 is 1 exactly when the URL contains a digit; features 1 and 2 are always 0 or 1 |
| `Blocklist.Lookup` | apis/app.py:55 | a hit is a stored entry with exactly that URL; a miss happens exactly when no stored entry has that URL |
| `Blocklist.FindById` | apis/app.py:69 | a hit is a stored entry with that id; a miss happens exactly when no stored entry has that id |
| `Blocklist.MaxId` | apis/app.py:21 | the result bounds every id in the table and is the id of some entry |
| `Blocklist.NextId` | apis/app.py:58 | the id given to a new row is larger than every current id, so it is held by no current entry; it is 1 for an empty table |
| `Blocklist.Without` | apis/app.py:73 | the remaining entries are exactly the old entries whose id differs from the deleted one |
| `Blocklist.WithoutAbsent` | apis/app.py:73 | helper of the removal: deleting an id that no entry carries leaves the table unchanged, used for the rows after the deleted one |
| `Blocklist.RemoveAtWellFormed` | apis/app.py:73-74 | removing one row keeps ids and URLs unique and URLs non-empty |
| `Blocklist.WithoutRemovesOnlyAt` | apis/app.py:73-75 | in a table with unique ids, deleting row k's id removes exactly row k; the other rows stay, in order |
| `Blocklist.Store.constructor` | apis/app.py:33-34 | a new table is empty and well-formed |
| `Blocklist.Store.List` | apis/app.py:41-44 | the listing is exactly the current entries, which have unique ids and unique URLs; listing changes nothing |
| `Blocklist.Store.Add` | apis/app.py:48-61 | a missing or empty URL (`Missing`, which defines Python's `not url` on an optional string: absent or empty) is rejected with "URL is required", exactly then, and the table is unchanged; a URL already stored is rejected as a conflict, exactly then, and the table is unchanged; otherwise one entry is appended with that URL, the given time and an id that no current entry holds; existing entries are untouched; URL uniqueness is preserved |
| `Blocklist.Store.Delete` | apis/app.py:67-75 | an id that no entry carries gives "not found", exactly then, and changes nothing; otherwise exactly that entry is removed, the others are kept in order, and the id is echoed back; afterwards no entry carries the id; the invariant is preserved |
| `Blocklist.Store.Check` | apis/app.py:81-99 | a missing or empty URL (`Missing`, as for add) is rejected with "URL is required", exactly then; a stored URL is blocked, exactly then, whatever the classifier; a URL is flagged exactly when it is not stored, a classifier is configured and the classifier predicts 1 on the URL's features; with no classifier, a URL that is not stored is safe; the URL is echoed back; the table is only read |
| `Blocklist.DeleteTwice` | apis/app.py:69-75 | the first delete succeeds exactly when the id was stored; the second delete of the same id is always "not found" |
| `Blocklist.AddThenCheck` | apis/app.py:55-61 | after adding a non-empty URL, whether the add succeeded or hit a duplicate, checking that URL gives blocked, whatever the classifier |
| `Rules.RulesFor` | Phishing_Protection/background.js:13-21 | one rule per entry, in the same order; rule i has entry i's id and entry i's URL as its filter; every rule has priority 1, action "block" and resource types exactly main_frame and sub_frame |
| `Rules.IdsOf` | Phishing_Protection/background.js:25 | the id list has one id per entry, in order: entry i's id |
| `Rules.UpdateFor` | Phishing_Protection/background.js:12-25 | with no `blocklist` property, both lists are empty; otherwise there are as many rules and removed ids as entries, and rule i and removed id i come from entry i; every rule has priority 1, action "block" and the two frame types; every added rule id is also in the removed list |
| `Rules.ListingInstallsNoRule` | Phishing_Protection/background.js:12 | as written, a non-empty listing from GET /blocklist produces an empty update |
| `Rules.UpdateFromBodyAsWritten` | Phishing_Protection/background.js:12-25 | built on `BlocklistProperty`, which defines `data.blocklist`: absent on an array, the object's property on an object; as written, an array body gives an empty update; an object body gives the update built from its `blocklist` property |
| `Rules.EntriesOf` | Phishing_Protection/background.js:12 | correction of the line: an array body carries its own items as the entries; on an object body the entries are the `blocklist` property, as written |
| `Rules.UpdateFromBody` | Phishing_Protection/background.js:12-25 | corrected handler: an array body gives one rule and one removed id per item, rule i and removed id i from item i; on an object body it equals the update as written |
| `Rules.ListingBlocksStoredUrls` | Phishing_Protection/background.js:12-25 | read correctly, the listing of a valid table gives one rule per stored entry; every stored URL is blocked under its own id; every rule comes from a stored entry; rule ids are pairwise distinct |

## Left out

- HTTP routing, JSON parsing, marshalling, the interactive API documentation and status codes are not modelled. Only the reply variants are modelled: `Ok` and the errors `UrlRequired` (400), `UrlExists` (409) and `EntryNotFound` (404).
- A request body that is not JSON, or that is not an object, is not modelled. Neither is a `url` field that holds a non-string JSON value. The source answers these with framework errors or stores the value as it is.
- The 255-character length declared for the URL column is not modelled. The storage engine does not enforce it.
- Transactions, commits, durability and concurrent requests are not modelled. Operations run one at a time. The race in which two concurrent adds of one URL both pass the duplicate test is not modelled; the database's unique constraint would then fail one of them.
- Blocklist.Store.Delete: the id is an unbounded `nat`. The route's integer converter has no upper bound, but the database driver cannot bind an integer of 2^63 or more, so the source answers such a DELETE with a server error. The model answers "not found".
- The storage engine's fallback when the largest id reaches 2^63-1 is not modelled: it then picks an unused id at random.
- The real classifier is left out: it is loaded from a file and its internals are unknown. It is reduced to the function `predict`.
- `Features.HasDigit`: digits are the ASCII digits '0' to '9'. Python's `\d` also matches other Unicode decimal digits.
- Determinism of feature extraction is not stated as a lemma. It holds because `ExtractFeatures` is a function.
- The extension's `fetch`, its `updateDynamicRules` call, the 60-second refresh timer and its logging are browser I/O and are not modelled. What `updateDynamicRules` then does with the rules is not modelled either.
- `Phishing_Protection/main.js` is not part of this model. It reads `details` and `url` before they are defined, and its one comparison depends on WHATWG URL host parsing.

## Findings

| source | as written | input that shows it | evidently intended | confidence | as-written member | corrected member |
|---|---|---|---|---|---|---|
| Phishing_Protection/background.js:12 | the extension reads the entries from `data.blocklist`. GET /blocklist (apis/app.py:40-44) answers with a top-level JSON array, which has no such property, so the extension always uses `[]` | a table holding `http://evil.example/login`: the body is `[{"id": 1, "url": "http://evil.example/login", ...}]`, and the update removes and adds nothing | the extension should take the entries from the array the API sends, and so install one blocking rule per stored URL | high; not executed | `Rules.UpdateFromBodyAsWritten`, `Rules.ListingInstallsNoRule` | `Rules.UpdateFromBody`, `Rules.ListingBlocksStoredUrls` |
