# Azure AD B2C user directory: the attribute-mapping core

This project models, in Dafny, the `User` class of the Azure AD B2C user-management client
(`src/azuregraphscripts/b2cusers.py`, and its byte-identical copy `src/b2cusers.py`; every row
below holds for both files at the same lines).

B2C keeps a tenant's custom user fields under opaque ids of the form
`extension_<appid>_<name>`. When a `User` is built, it reads the tenant's user-flow attribute
schema. From it the class builds three things:

- a name-to-id mapping: a built-in id maps to itself, and a custom attribute's lower-cased display
  name maps to its id;
- the list of custom ids. This list is a class attribute, shared by every instance and never reset;
- the combined attribute list.

The operations then use these tables:

- `list` validates the requested extra attributes and dispatches on `max`. It follows
  `@odata.nextLink` page after page, then renames custom ids in each record back to attribute names.
- `profile` builds one record with every mapping key, filling in None for fields the server
  omitted, and removes a denylist.
- `create`, `update` and `change_password` compose the bodies they send.

The model:

- Python dicts are `PyDict.Dict`: the keys in insertion order plus a map. This keeps last-write-wins
  and the order of keys exactly as in Python.
- The class is `B2cUsers.User`. Its fields are the mapping, the id list and the combined list. The
  shared class-level list is a separate object, `B2cUsers.SharedCustomAttributes`, handed to every
  constructor.
- The loops of the source are `while` loops. Five are proved equal to specification functions:
  the schema loop (`BuildTables`) to `Schema.BuildMapping` and `Schema.CustomIds`, the paging loop
  (`FetchAll`) to `Listing.Collected`, the inner remap loop (`RemapCustomer`) to
  `Listing.RemapRecord`, the outer remap loop (`Remap`) to `Listing.RemapAll`, and the known-field
  loop (`MapKnownFields`) to `Payloads.Translated`. The properties are proved as lemmas about those
  functions. The loops of `SelectAttributes`, `Profile`
  and `PopAll` are proved against their own postconditions, which state the result outright.
- Every Graph API call is replaced by a parameter holding what the server returned: the schema
  entries, the pages of a paged listing, the response of a bounded listing, and the sparse profile.
- Raised exceptions are `Errors.Error` values in a `Result`.

The model follows the code as written:

- A negative `max` takes the bounded branch, as `elif(max <= 999)` does, although the exception
  text at b2cusers.py:189 says that `max` should lie between 0 and 999.
- In `create` and `update`, names outside the mapping are not translated. `create` still reads
  `email`, `password`, `displayName`, `givenName` and `surname` directly from its input.
- The custom-id list is class-level and keeps ids from earlier instances. `list` renames by
  membership in that shared list, so a second `User` raises `KeyError` on an id that only an
  earlier instance's schema had (`B2cUsers.SecondInstanceKeepsStaleId`).

## Model

| member | source | states |
|---|---|---|
| `PyDict.Dict.Set` | src/azuregraphscripts/b2cusers.py:80 | `d[k] = v` stores v under k; a new key goes to the end of the key order, a present key keeps its place, and a well-formed dict stays well formed |
| `PyDict.Dict.Pop` | src/azuregraphscripts/b2cusers.py:272 | `d.pop(k, "")` removes k if present and keeps every other key with its value; a well-formed dict stays well formed |
| `Json.Get` | src/azuregraphscripts/b2cusers.py:314 | definition: `d.get(k)`, the value under k or None when k is absent; what the display-name default makes of it is stated by `Payloads.DefaultDisplayName` |
| `Json.PyStr` | src/azuregraphscripts/b2cusers.py:314 | definition: how the f-string renders a value (a string as itself, None as "None"); its use is stated by `Payloads.DefaultDisplayName` |
| `Text.LowerChar` | src/azuregraphscripts/b2cusers.py:75 | definition: the ASCII case mapping of one character, an ASCII capital becoming its small letter and every other character kept; used by `Text.LowerSpec` |
| `Text.Lower` | src/azuregraphscripts/b2cusers.py:75 | `Text.Lower`, the ASCII stand-in for `.lower()`, keeps the length of its input (each character is given by `Text.LowerSpec`) |
| `Text.LowerSpec` | src/azuregraphscripts/b2cusers.py:75 | `Text.Lower` keeps the length and maps character i to `Text.LowerChar` of input character i, so it lower-cases each ASCII letter and keeps every other character |
| `Schema.Ids` | src/azuregraphscripts/b2cusers.py:64-66 | definition: `userflow_user_attributes`, the schema ids in schema order; the `B2cUsers.User.constructor` ensures store it as the user-flow list |
| `Schema.AllAttributes` | src/azuregraphscripts/b2cusers.py:83-87 | the combined list is base, then extended, and ends with exactly the user-flow ids |
| `Schema.KeyOf` | src/azuregraphscripts/b2cusers.py:71-80 | definition: the key an entry is stored under, its id when built in, else its lower-cased display name; used by `Schema.MappingKeys` |
| `Schema.BuildMapping` | src/azuregraphscripts/b2cusers.py:69-80 | definition: the mapping as a left fold of the schema, each entry set under its key; its properties are the `Schema.Mapping*` lemmas below |
| `Schema.CustomIds` | src/azuregraphscripts/b2cusers.py:79 | definition: the ids appended to the shared list, in schema order; characterised by `Schema.CustomIdsMembership` |
| `Schema.LastIndexOfKey` | src/azuregraphscripts/b2cusers.py:71-80 | reference for the overwrite order: the index of the last entry with key k, no later entry having that key, or -1 when none has it |
| `Schema.MappingValid` | src/azuregraphscripts/b2cusers.py:69-80 | the mapping built by the loop is a well-formed dict, each key listed once in insertion order |
| `Schema.MappingKeys` | src/azuregraphscripts/b2cusers.py:71-80 | the mapping's keys are exactly the entry keys: the id of a built-in entry, the lower-cased display name of any other |
| `Schema.MappingLastWins` | src/azuregraphscripts/b2cusers.py:71-80 | an entry's key maps to its id whenever no later entry has the same key, so a later entry overwrites an earlier one |
| `Schema.MappingValueIsLastId` | src/azuregraphscripts/b2cusers.py:71-80 | every mapped value is the id of the last entry with that key |
| `Schema.BuiltInMapsToItself` | src/b2cusers.py:71-73 | a built-in entry, unless overwritten later, maps its id to itself |
| `Schema.CustomMapsFromLowerName` | src/b2cusers.py:74-80 | a custom entry, unless overwritten later, maps its lower-cased display name to its id |
| `Schema.CustomIdsMembership` | src/azuregraphscripts/b2cusers.py:72-79 | the ids the constructor appends are exactly the ids of the entries that are not built in, and no more of them than there are entries |
| `Schema.BuildStep` | src/azuregraphscripts/b2cusers.py:71-80 | one turn of the schema loop adds the entry's key with its id, and appends the id to the custom list exactly when the entry is not built in |
| `Schema.InvertKeys` | src/azuregraphscripts/b2cusers.py:193 | definition: the comprehension over the given keys in order, a later key overwriting an earlier one with the same value; characterised by `Schema.InvertKeysSound` and `Schema.InvertKeysLastWins` |
| `Schema.Invert` | src/azuregraphscripts/b2cusers.py:193 | definition: the reversed mapping, taken over the mapping's keys in insertion order; characterised by `Schema.InvertIsRightInverse` |
| `Schema.InvertKeysSound` | src/azuregraphscripts/b2cusers.py:193 | the comprehension's keys are exactly the mapped values, and each gives back a key holding that value |
| `Schema.InvertKeysLastWins` | src/azuregraphscripts/b2cusers.py:193 | among keys sharing a value, the comprehension keeps the last in iteration order |
| `Schema.InvertIsRightInverse` | src/azuregraphscripts/b2cusers.py:193 | the reversed mapping is defined exactly on the mapping's values, and the mapping sends the name it returns back to the same id |
| `Listing.FirstUnknown` | src/azuregraphscripts/b2cusers.py:151-154 | finds no name exactly when every included name is known, and otherwise the first unknown one, all earlier names being known |
| `Listing.LastPage` | src/azuregraphscripts/b2cusers.py:174-177 | the next-link loop stops at the first page without `@odata.nextLink`, and every earlier page has one |
| `Listing.Flatten` | src/azuregraphscripts/b2cusers.py:172-177 | definition: the users of the pages, page after page, as the `extend` calls gather them; characterised by `Listing.FlattenLength` and `Listing.FlattenIndex` |
| `Listing.Collected` | src/azuregraphscripts/b2cusers.py:172-177 | definition: the users of every page up to and including the first without a next link; `B2cUsers.User.FetchAll` is proved to compute it |
| `Listing.FlattenLength` | src/azuregraphscripts/b2cusers.py:172-177 | the gathered list is as long as the gathered pages together |
| `Listing.FlattenIndex` | src/b2cusers.py:160-178 | user j of page p is at position (users on earlier pages) + j: pages are concatenated in order |
| `Listing.FlattenValid` | src/azuregraphscripts/b2cusers.py:172-177 | gathering pages of well-formed records gives well-formed records |
| `Listing.ThreePagesGather2040` | src/azuregraphscripts/b2cusers.py:160-178 | pages of 999, 999 and 42 users, the last without a next link, gather 2040 users |
| `Listing.CanRename` | src/azuregraphscripts/b2cusers.py:201-202 | definition: the reversed-mapping lookup either is not made (the key is not a custom id) or finds the key |
| `Listing.NewName` | src/azuregraphscripts/b2cusers.py:201-204 | definition: a custom id with a reversed name takes that name, and every other key keeps its own |
| `Listing.RemapKeys` | src/azuregraphscripts/b2cusers.py:200-204 | definition: the item loop over the given keys, the first custom id with no name raising `KeyError`; characterised by `Listing.RemapKeysOutcome`, `Listing.RemapKeysNames` and `Listing.RemapKeysLastWins` |
| `Listing.RemapRecord` | src/azuregraphscripts/b2cusers.py:198-206 | definition: one record renamed over its keys in insertion order; characterised by `Listing.RemapRecordSpec` |
| `Listing.FirstFailure` | src/azuregraphscripts/b2cusers.py:196-206 | definition: the record loop over the records' outcomes, the first error ending it; characterised by `Listing.FirstFailureShape` |
| `Listing.RemapAll` | src/azuregraphscripts/b2cusers.py:196-206 | definition: the record loop, the first record that raises ending it; characterised by `Listing.RemapAllShape` and `Listing.RemapAllFailurePersists` |
| `Listing.RemapKeysOutcome` | src/azuregraphscripts/b2cusers.py:200-204 | renaming fails exactly when some custom key has no reversed name, and then raises a `KeyError` for the first such key |
| `Listing.RemapKeysNames` | src/azuregraphscripts/b2cusers.py:198-204 | a renamed record is a well-formed dict whose keys are the new names of the old keys |
| `Listing.RemapKeysLastWins` | src/azuregraphscripts/b2cusers.py:200-204 | the value under a new name is that of the last key given that name |
| `Listing.RemapKeysFailurePersists` | src/azuregraphscripts/b2cusers.py:200-202 | once a key has raised, the loop over the whole record raises the same error |
| `Listing.RemapKeysStep` | src/azuregraphscripts/b2cusers.py:200-204 | one turn of the item loop adds the next key under its new name with its value, or raises `KeyError` for a custom id with no name |
| `Listing.RemapSingleUnnamed` | src/azuregraphscripts/b2cusers.py:200-202 | a one-key record whose key is a custom id missing from the reversed mapping raises `KeyError` for that id |
| `Listing.RemapAllFailurePersists` | src/azuregraphscripts/b2cusers.py:196-206 | once a record has raised, the loop over all records raises the same error |
| `Listing.FirstFailureShape` | src/azuregraphscripts/b2cusers.py:196-206 | the loop over records succeeds exactly when every record does, and then holds each record's result in order |
| `Listing.FirstFailurePersists` | src/azuregraphscripts/b2cusers.py:196-206 | once some first records have raised, the loop over all records raises the same error |
| `Listing.RemapAllStep` | src/azuregraphscripts/b2cusers.py:196-206 | one turn of the record loop appends the next renamed record, or raises that record's error |
| `Listing.RemapAllShape` | src/azuregraphscripts/b2cusers.py:196-206 | the result holds exactly one renamed record per fetched record, in order, unless some record cannot be renamed |
| `Listing.RemapAllSingle` | src/azuregraphscripts/b2cusers.py:196-206 | the record loop over one record raises what that record raises, and otherwise returns the one renamed record |
| `Listing.RemapRecordSpec` | src/b2cusers.py:192-208 | one record: fails exactly when a custom id has no name; otherwise a custom id becomes its name, other keys are kept, and values stay with their keys unless a later key takes the same name |
| `Listing.RemapWithoutCollisions` | src/azuregraphscripts/b2cusers.py:198-206 | with no two keys taking the same name, every non-custom key keeps its value and every custom id's value moves to its name |
| `Listing.RemapRoundTrip` | src/azuregraphscripts/b2cusers.py:193-204 | a record keyed only by mapped custom ids, renamed by the reversed mapping, translates back through the mapping to the original record |
| `Listing.RoundTripHelper` | src/azuregraphscripts/b2cusers.py:193-204 | the same round trip, for any reversed map that the mapping undoes on the record's keys |
| `Listing.RemapThenTranslate` | src/azuregraphscripts/b2cusers.py:193-204 | renaming a record keyed by mapped custom ids succeeds, and translating the renamed record back as the known-field loop at b2cusers.py:310-312 does gives the original record |
| `Listing.TranslateBack` | src/azuregraphscripts/b2cusers.py:359-361 | translating a record whose names the mapping sends to another record's keys, with matching values, gives that other record |
| `Listing.BoundedAsWritten` | src/azuregraphscripts/b2cusers.py:179-200 | definition: the remap loop run over the response object itself, raising `AttributeError` on its first key; characterised by `Listing.BoundedAsWrittenFails` |
| `Listing.BoundedAsWrittenFails` | src/azuregraphscripts/b2cusers.py:179-200 | any bounded-listing response carrying a `value` list makes `list` raise `AttributeError` |
| `Listing.BoundedAsWrittenRejectsEmptyListing` | src/azuregraphscripts/b2cusers.py:179-200 | even an empty bounded listing raises `AttributeError` on its first key |
| `Listing.BoundedCorrectedShape` | src/azuregraphscripts/b2cusers.py:179-187 | the intended bounded listing gives one renamed record per user of the response, in order |
| `Listing.BoundedCorrected` | src/azuregraphscripts/b2cusers.py:179-187 | definition: the intended bounded listing, the response's users renamed like a paged listing; characterised by `Listing.BoundedCorrectedShape` |
| `Listing.Decodes` | src/azuregraphscripts/b2cusers.py:180-187 | definition: a response object is the JSON form of a page, its users under `value` and its next link under `@odata.nextLink` |
| `Listing.BoundedAsWrittenVersusCorrected` | src/azuregraphscripts/b2cusers.py:179-200 | on one and the same response, the branch as written raises `AttributeError`, while the intended branch returns no users for an empty response and succeeds exactly when every user can be renamed |
| `Listing.BoundedOnEmptyListing` | src/azuregraphscripts/b2cusers.py:179-200 | on the response `{"@odata.context": "users", "value": []}`, the branch as written raises `AttributeError` and the intended branch returns no users |
| `Payloads.TranslateKeys` | src/azuregraphscripts/b2cusers.py:310-312 | definition: the known-field loop over the given mapping keys, each supplied name set under its id; characterised by `Payloads.TranslateKeysFields` and `Payloads.TranslateKeysLastWins` |
| `Payloads.Translated` | src/azuregraphscripts/b2cusers.py:359-361 | definition: the known-field loop over every mapping key in insertion order; characterised by `Payloads.TranslatedContents` |
| `Payloads.TranslateKeysFields` | src/azuregraphscripts/b2cusers.py:310-312 | the known-field loop sends exactly the ids of the supplied mapping keys, each with a value supplied under a name with that id |
| `Payloads.TranslateKeysLastWins` | src/azuregraphscripts/b2cusers.py:310-312 | when two supplied names share an id, the later one in mapping order wins |
| `Payloads.TranslatedContents` | src/azuregraphscripts/b2cusers.py:359-361 | the translated body's keys are exactly the ids of supplied mapping keys, other input keys are dropped, and a name alone in its id sends its own value |
| `Payloads.CreateBody` | src/azuregraphscripts/b2cusers.py:314-328 | definition: the six fixed fields set one after the other on the translated fields; characterised by `Payloads.SetCreateKeys` and `Payloads.CreateBodyFixedFields` |
| `Payloads.SetCreateKeys` | src/azuregraphscripts/b2cusers.py:314-328 | adding the six fixed fields keeps the dict well formed, adds exactly those keys and leaves every other field alone |
| `Payloads.SetCreateValues` | src/azuregraphscripts/b2cusers.py:314-328 | after the six assignments each fixed name holds the value last assigned to it |
| `Payloads.MapSetValues` | src/azuregraphscripts/b2cusers.py:314-328 | after the six updates of a plain map, each fixed name holds the value last stored under it |
| `Payloads.CreateBodyFixedFields` | src/azuregraphscripts/b2cusers.py:314-328 | each fixed field of the create body holds its required value, whatever the translation put under that name |
| `Payloads.PasswordProfile` | src/azuregraphscripts/b2cusers.py:318-321 | the password profile holds exactly the password and `forceChangePasswordNextSignIn = false` |
| `Payloads.LocalIdentity` | src/azuregraphscripts/b2cusers.py:322-328 | the identity holds exactly issuer = tenant name, issuerAssignedId = email, signInType = "emailAddress" |
| `Payloads.DefaultDisplayName` | src/azuregraphscripts/b2cusers.py:314 | the default display name is "<givenName> <surname>", and starts with "None " when the given name is missing |
| `B2cUsers.SharedCustomAttributes.constructor` | src/azuregraphscripts/b2cusers.py:24 | the class-level custom-id list starts empty |
| `B2cUsers.User.constructor` | src/azuregraphscripts/b2cusers.py:45-87 | builds the id list, the mapping (the schema fold) and the combined list, and appends the custom ids to the shared list after whatever it already held |
| `B2cUsers.User.BuildTables` | src/azuregraphscripts/b2cusers.py:69-80 | the schema loop builds exactly the mapping fold and appends exactly the custom ids, in schema order, to the shared list |
| `B2cUsers.User.TablesStep` | src/azuregraphscripts/b2cusers.py:71-80 | one turn of the schema loop extends the mapping fold by the entry and the shared list by the entry's id exactly when it is not built in |
| `B2cUsers.User.AddSchemaEntry` | src/azuregraphscripts/b2cusers.py:72-80 | one entry goes into the mapping under its key, and a custom id onto the end of the shared list, which is otherwise unchanged |
| `B2cUsers.User.GetAttributes` | src/azuregraphscripts/b2cusers.py:89-111 | returns base ++ extended ++ user-flow ids and leaves the combined list as it was, so repeated calls agree |
| `B2cUsers.User.SelectAttributes` | src/azuregraphscripts/b2cusers.py:149-156 | raises for the first unknown included name, naming all mapping keys; otherwise selects the base attributes plus the id of each included name |
| `B2cUsers.User.FetchAll` | src/azuregraphscripts/b2cusers.py:160-177 | gathers exactly the pages up to the first without a next link, in order |
| `B2cUsers.User.RemapCustomer` | src/azuregraphscripts/b2cusers.py:198-204 | the inner loop computes `Listing.RemapRecord` of the record: the renamed record, or `KeyError` for the first custom id with no name |
| `B2cUsers.User.Remap` | src/azuregraphscripts/b2cusers.py:192-208 | the nested loops compute the renaming of every record against the shared custom list |
| `B2cUsers.User.List` | src/azuregraphscripts/b2cusers.py:133-208 | an unknown included attribute raises `UnknownAttribute` (the `ValueError`) before any page or response is used; otherwise max > 999 raises; max == 0 renames every gathered page; any other max takes the bounded branch as written |
| `B2cUsers.User.Profile` | src/azuregraphscripts/b2cusers.py:261-274 | the profile's keys are exactly the mapping keys minus the denylist; each value is the server's value at the mapped id, or None where the server omitted it |
| `B2cUsers.User.PopAll` | src/azuregraphscripts/b2cusers.py:271-272 | popping each denylisted key leaves exactly the other keys, with their values unchanged, and ignores keys that are absent |
| `B2cUsers.User.PopStep` | src/azuregraphscripts/b2cusers.py:271-272 | popping the next denylisted key keeps the dict well formed, drops just that key and leaves every other value alone |
| `B2cUsers.User.MapKnownFields` | src/azuregraphscripts/b2cusers.py:359-361 | the known-field loop computes the translated body |
| `B2cUsers.User.Create` | src/azuregraphscripts/b2cusers.py:310-328 | a missing email raises, then a missing password; otherwise the body has the translated fields plus displayName (default "<givenName> <surname>"), mail = email, accountEnabled = true, passwordPolicies = "DisablePasswordExpiration", the password profile and exactly one local email identity issued by the tenant |
| `B2cUsers.User.Update` | src/azuregraphscripts/b2cusers.py:357-361 | the patch's keys are exactly the ids of the supplied mapping keys; other input keys are dropped |
| `B2cUsers.User.ChangePassword` | src/azuregraphscripts/b2cusers.py:400-404 | the patch holds only `passwordProfile`, with the given password and no forced change |
| `B2cUsers.StaleCustomIdRaises` | src/azuregraphscripts/b2cusers.py:79 | when a custom id of an earlier schema is absent from a later schema, renaming a record holding that id against the shared list and the later mapping raises `KeyError` for it |
| `B2cUsers.SecondInstanceKeepsStaleId` | src/azuregraphscripts/b2cusers.py:192-208 | two `User`s built in turn on one shared list: the second one's remap loop raises `KeyError` on an id that only the first one's schema had |

## Left out

- `src/azuregraphscripts/mggraph.py` and `src/mggraph.py`: obtaining OAuth2 tokens (the device-code grant of RFC 8628 and the client-credentials grant of section 4.4 of RFC 6749) and building the cached HTTP client are I/O around foreign libraries.
- `search` (b2cusers.py:113-131): one HTTP GET with a URL-quoted email; nothing is computed locally.
- `delete`, and the `bool(...)` of the HTTP response that `update`, `change_password` and `delete` return: they only reflect the HTTP layer. The model returns the body that would be sent.
- `create` returns the server's created user. The model returns the body that would be posted.
- The `$select` string `','.join(set)`: set iteration order is unspecified, so the model keeps the attribute set.
- The exact text of the `ValueError` message: the model keeps the unknown name and the allowed keys in order, which the message joins.
- The `userid`, `api_url`, credentials and `$top`/`$filter` query parameters, and `profile`'s `user_attributes` argument: they only shape the request URL.
- What the server does with a negative or bounded `$top`: the bounded branch is modelled only up to the point where it raises.
- JSON decoding, timeouts and caching; pages, schema entries and profiles come in already decoded.
- Following next links assumes that some page eventually has no next link; otherwise the source loops forever.
- `Text.Lower`: Python's `str.lower()` also lower-cases non-ASCII letters ('Ä' to 'ä'), and some, like 'İ', become two code points. The model lower-cases ASCII only, which Unicode case tables would be needed to go beyond.
- `Text.LowerSpec`: states the ASCII case mapping of `Text.Lower`, so it keeps the length and leaves non-ASCII letters alone, where `str.lower()` need not.
- `Text.LowerChar`: maps ASCII capitals only; a non-ASCII capital is kept, where `str.lower()` lowers it.
- `Json.PyStr`: a list or dict value is rendered as a fixed placeholder, not as Python's `repr`, and floats are not modelled.

## Findings

| source | as written | input that shows it | evidently intended | confidence | as-written member | corrected member |
|---|---|---|---|---|---|---|
| src/azuregraphscripts/b2cusers.py:179-200 | the bounded branch stores the whole response object in `all_customers`, so the remap loop iterates its keys and calls `.items()` on a string | `list(max=10)` with the response `{"@odata.context": "users", "value": []}` raises `AttributeError` | iterate the response's `value` list, as the `max == 0` branch does | not executed; high | `Listing.BoundedAsWrittenRejectsEmptyListing` | `Listing.BoundedCorrectedShape` |

`B2cUsers.User.List` keeps the bounded branch as written. `Listing.BoundedCorrected` is the intended
definition. `Listing.BoundedAsWrittenVersusCorrected` runs both on one response, and
`Listing.BoundedOnEmptyListing` on the empty listing above.
