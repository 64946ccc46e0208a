# ldapReader: a Dafny model of the paged-search reader

`ldapReader` is a C++ class over OpenLDAP's libldap. It binds to a directory server, issues a
subtree search with the Simple Paged Results control of RFC 2696, and hands out the result entries one
by one through `fetch()`. When a page is used up, `fetch()` asks the server for the next page.
`getAttribute()` reads the values of one attribute of the current entry. `clearBerval()` frees those
values.

The model has six modules:

- `Wrappers`: `Option` (a NULL pointer is `None`), `Result` and `Outcome`. These stand for the
  thrown `ldapException`s.
- `Ldap`: libldap as values. It has entries, NULL-terminated arrays (`Terminated`,
  `UpToTerminator`), the page control, search requests and replies, and an abstract,
  deterministic `Directory`. The `Directory` answers a simple bind and a page search, each with
  success or an error message plus data.
- `Paging`: the test that decides whether another page follows (Finding 1).
- `ReaderSpec`: the object's fields as one value, `ReaderState`. Each operation is a function
  from the state before to the state after and what the call returns or throws. The lemmas
  about single operations are here too.
- `Iteration`: repeated `fetch()` calls over a directory that serves a fixed sequence of pages.
- `LdapReader`: the class `Reader`. It has the source's fields, and each method is proved to follow
  its `ReaderSpec` function: `ensures (State(), o) == ReaderSpec.X(old(State()), ...)`.

The `entry` pointer is modelled as `Option<EntryRef>`. An `EntryRef` is a position inside a
particular result page. So after a second `query()`, an entry that was current still points into
the earlier page, as the C pointer does.

## Behaviours a reader might not expect

The model keeps these behaviours of the code.

- `fetch()` calls itself at most once (ldapReader.h:277). The inner call always takes the
  first-entry branch, because `entry` was just set to NULL at ldapReader.h:269. So an empty page
  whose cookie announces more pages ends the iteration with false
  (`Iteration.EmptyPageEndsIteration`).
- After `fetch()` has returned false, the result is kept and the entry is NULL. The next call
  starts again at the first entry of the last page (`Iteration.FetchAfterFalseRestarts`).
- `query()` does not reset `entry` or `pageCookie` (`ReaderSpec.StaleEntryAfterQuery`,
  `ReaderSpec.QuerySendsOneSearch`).

## Which copy is the reference

Each operation appears twice: as a function in `ReaderSpec` and as a method of
`LdapReader.Reader`. The methods follow the source statement by statement, apart from the two
corrections listed under "## Findings". The functions are the reference. Every method is proved equal to its function, and the properties are proved about the
functions.

## Model

| member | source | states |
|---|---|---|
| `Ldap.Terminated` | ldapReader.h:224-241 | the attribute array holds n+1 slots: the n names in call order, then a NULL terminator |
| `Ldap.UpToTerminatorOfTerminated` | ldapReader.h:306-314 | reading a NULL-terminated array up to its terminator gives back exactly the elements put into it |
| `Ldap.UpToTerminatorIsPrefix` | ldapReader.h:310-311 | the loop of `clearBerval` visits exactly the elements before the first NULL, in order, and stops at that NULL |
| `Ldap.ValuesOf` | ldapReader.h:296 | `ldap_get_values_len` gives NULL exactly when the entry lacks the attribute; otherwise it gives `Terminated` of the values: the values in server order, then a NULL terminator |
| `Paging.CStrLen` | ldapReader.h:466 | `strlen` of the cookie counts the bytes before the first zero byte |
| `Paging.LeadingZeroCookieEndsPagingAsWritten` | ldapReader.h:466-469 | a non-empty cookie with a leading zero byte is read as "no more pages" (Finding 1) |
| `Paging.MorePagesAsWritten` | ldapReader.h:466-469 | the source's test: more pages exactly when the cookie is non-empty and its first byte is not zero |
| `Paging.MorePages` | ldapReader.h:466-469 | the RFC 2696 test used by the model: it accepts every cookie the source's test accepts, and also the non-empty cookies whose first byte is zero (corrected, Finding 1) |
| `ReaderSpec.SetCred` | ldapReader.h:348-369 | stores exactly the given user and password, sets `bv_len` to the password's length and marks credentials present, and leaves the bound flag, result and entry alone |
| `ReaderSpec.ServerBind` | ldapReader.h:394-402 | the object is marked bound exactly when the server accepts the bind; a refusal throws the library's message and changes nothing |
| `ReaderSpec.Bind` | ldapReader.h:147-157 | throws "Already binded" exactly when bound and not rebinding; throws "Auth parameters doesn't exist" exactly when allowed to bind but no credentials exist; on any error the state is unchanged; succeeds exactly when the server accepts the stored credentials |
| `ReaderSpec.BindAs` | ldapReader.h:165-174 | when bound and not rebinding, throws "Already binded" before touching the credentials; otherwise stores exactly the given credentials and succeeds exactly when the server accepts them; the bound flag is set only by a successful bind and is never cleared |
| `ReaderSpec.PrepareControls` | ldapReader.h:405-432 | the previous control is always dropped; a new one built from the page size, cookie and criticality flag replaces it exactly when the page size is at least 1; otherwise the library's "Bad parameter to an ldap routine" is thrown and no control is left; nothing else changes |
| `ReaderSpec.PageSearch` | ldapReader.h:405-470 | a page size below 1 throws "Bad parameter to an ldap routine" before any search, keeping the result and leaving no control; otherwise one page search with the control built from the page size, cookie and criticality flag; succeeds exactly when the page size is at least 1 and the server returns a page; on success the page becomes the result, the returned cookie is kept, and more pages are available exactly when that cookie is non-empty (corrected, Finding 1); on failure the cookie and the paging flag keep their values; nothing else changes |
| `ReaderSpec.AttributeListAsWritten` | ldapReader.h:218-242 | as written: n > 0 names replace the list; no names keep the previous list (Finding 2) |
| `ReaderSpec.AttributeList` | ldapReader.h:218-242 | no names gives NULL (all attributes); n names give n+1 slots that read back as the names, then NULL (corrected, Finding 2) |
| `ReaderSpec.Query` | ldapReader.h:208-249 | stores the filter and base first; fails with "Too many attributes requested." exactly when more than 50 names are given, and then keeps the old list and result; otherwise stores the new list (corrected, Finding 2) and builds the control from the held cookie, or throws "Bad parameter to an ldap routine" keeping the old result when the page size is below 1; on success there is a result and more pages are flagged exactly when the cookie is non-empty (corrected, Finding 1); never changes the entry pointer |
| `ReaderSpec.FirstEntry` | ldapReader.h:258-267 | the first-entry branch returns true exactly when the page is non-empty, and then points at entry 0 |
| `ReaderSpec.Fetch` | ldapReader.h:254-282 | keeps the object invariant; true implies an entry is current; when there is a result, anything other than true leaves no entry current; the bound flag, all credential fields, the page size and the search parameters are untouched |
| `ReaderSpec.FetchWithoutResult` | ldapReader.h:256-257 | with no result, `fetch` returns false and changes nothing |
| `ReaderSpec.FetchEndsWithoutMorePages` | ldapReader.h:269-280 | with the page used up and no more pages, `fetch` returns false, clears the entry pointer and issues no search |
| `ReaderSpec.GetAttribute` | ldapReader.h:289-300 | throws "No entry retrieved from server" exactly when no entry is current; otherwise NULL exactly when the entry lacks the attribute, else its values in server order |
| `ReaderSpec.Initial` | ldapReader.h:318-337 | a fresh object is unbound, has no credentials, result or entry, page size 1000, criticality 'T' and no further page |
| `ReaderSpec.TooManyAttributesIssuesNoSearch` | ldapReader.h:211-222 | with more than 50 names the query throws "Too many attributes requested." whatever the server; only the filter and base are stored |
| `ReaderSpec.QuerySendsOneSearch` | ldapReader.h:208-249 | with at most 50 names the query sends one search for the new filter, base and attribute list, carrying the cookie already held (and succeeds only when the page size is at least 1), and leaves the entry pointer as it was |
| `ReaderSpec.NonPositivePageSizeFailsQuery` | ldapReader.h:405-416 | after `setPageSize` with a size below 1, a query with at most 50 names throws "Bad parameter to an ldap routine" whatever the server, storing filter, base and list but leaving no control and the old result |
| `ReaderSpec.NonPositivePageSizeFailsNextPage` | ldapReader.h:269-275 | with a size below 1, a `fetch` at the end of a page with more pages announced throws instead of asking for the next page, clearing the entry pointer and the control |
| `ReaderSpec.NextRequestCarriesCookie` | ldapReader.h:405-469 | after a successful page search, the next control carries the returned cookie with the page size and criticality flag, and more pages are flagged exactly when that cookie is non-empty (corrected, Finding 1) |
| `ReaderSpec.FetchRecursesOnce` | ldapReader.h:269-281 | when the page is used up and more pages exist, `fetch` runs exactly one page search, then takes the first-entry branch; it returns true exactly when the new page is non-empty |
| `ReaderSpec.FetchRestartsAfterEnd` | ldapReader.h:256-267 | with a result and no current entry, `fetch` returns true exactly when the page is non-empty and points at its first entry |
| `ReaderSpec.StaleEntryAfterQuery` | ldapReader.h:244-272 | a query made while an entry is current leaves the entry pointer alone, so the next `fetch` moves on inside the earlier result |
| `ReaderSpec.QueryIgnoresPreviousAttributes` | ldapReader.h:218-242 | with the correction, a query's outcome does not depend on the attribute list of the query before it (Finding 2) |
| `ReaderSpec.AttributesReusedAsWritten` | ldapReader.h:196-242 | as written, a query with no names after one asking for `cn` still asks for `cn` only, not for all attributes (Finding 2) |
| `Iteration.EntryCountFrom` | ldapReader.h:254-282 | the entries from page k on are those of page k plus those after it |
| `Iteration.NextPage` | ldapReader.h:269-277 | after a used-up page that is not the last, the request carries that page's cookie, and the reader then holds the next page with no current entry |
| `Iteration.FetchStep` | ldapReader.h:254-282 | while entries remain, `fetch` returns true and hands out exactly one more entry |
| `Iteration.FetchEnd` | ldapReader.h:254-282 | with no entries remaining, `fetch` returns false and leaves no current entry on the last page |
| `Iteration.FetchRunFrom` | ldapReader.h:254-282 | from any position, `fetch` returns true once for each remaining entry, then false |
| `Iteration.FetchDeliversEveryEntry` | ldapReader.h:254-282 | holding the first page with no current entry, with a page size of at least 1 and no page but the last empty, `fetch` returns true exactly once per entry of all pages, then false |
| `Iteration.QueryThenFetchEveryEntry` | ldapReader.h:208-282 | a query on a reader with no current entry and a page size of at least 1 succeeds, and the `fetch` calls after it return true once per entry of all pages, then false |
| `Iteration.FetchAfterFalseRestarts` | ldapReader.h:256-280 | after the final false, the next `fetch` returns true exactly when the last page is non-empty: false is not final |
| `Iteration.EmptyPageEndsIteration` | ldapReader.h:263-278 | an empty page whose cookie announces more pages makes `fetch` return false while more pages remain flagged |
| `LdapReader.Reader.constructor` | ldapReader.h:318-337 | the defaults of `_start`: unbound, no credentials, no result or entry, page size 1000, criticality 'T', no further page |
| `LdapReader.Reader.Bind` | ldapReader.h:147-157 | new state and outcome are those of `ReaderSpec.Bind` |
| `LdapReader.Reader.BindAs` | ldapReader.h:165-174 | new state and outcome are those of `ReaderSpec.BindAs` |
| `LdapReader.Reader.SetPageSize` | ldapReader.h:180-183 | only the page size changes |
| `LdapReader.Reader.Query` | ldapReader.h:208-249 | builds the NULL-terminated list in a loop; new state and outcome are those of `ReaderSpec.Query` (with the Finding 2 correction) |
| `LdapReader.Reader.Fetch` | ldapReader.h:254-282 | recursive as in the source; new state and result are those of `ReaderSpec.Fetch` |
| `LdapReader.Reader.GetAttribute` | ldapReader.h:289-300 | throws "No entry retrieved from server" exactly when no entry is current; otherwise gives the library's values for the current entry |
| `LdapReader.Reader.ClearBerval` | ldapReader.h:306-314 | NULL frees nothing; otherwise frees, in order, exactly the values before the NULL terminator |
| `LdapReader.Reader.SetCred` | ldapReader.h:348-369 | new state is `ReaderSpec.SetCred` of the old one |
| `LdapReader.Reader.ServerBind` | ldapReader.h:394-402 | new state and outcome are those of `ReaderSpec.ServerBind` |
| `LdapReader.Reader.PrepareControls` | ldapReader.h:405-432 | new state and outcome are those of `ReaderSpec.PrepareControls`: the old control is dropped, and the new one is built only for a page size of at least 1 |
| `LdapReader.Reader.RunPageSearch` | ldapReader.h:434-470 | new state and outcome are those of `ReaderSpec.PageSearch` (corrected, Finding 1) |

## Findings

| source | as written | input that shows it | evidently intended | confidence | as-written member | corrected member |
|---|---|---|---|---|---|---|
| ldapReader.h:466 | more pages when `strlen(pageCookie.bv_val) > 0`; `strlen` stops at the first zero byte of the opaque cookie | a page returned with the two-byte cookie 00 07 | more pages exactly when the cookie is non-empty (section 3 of RFC 2696), so the next page is requested | medium, not executed | `Paging.MorePagesAsWritten` (shown by `Paging.LeadingZeroCookieEndsPagingAsWritten`) | `Paging.MorePages` (used by `ReaderSpec.PageSearch`; `Iteration.FetchDeliversEveryEntry` is proved with it) |
| ldapReader.h:218-242 | the attribute list is replaced only when `attrNum > 0`; `query(filter, base)` passes 0 and keeps the previous list | `query(f, b, 1, "cn")` then `query(f, b)` | `query(filter, base)` asks for all attributes, as its comment at ldapReader.h:192 says (a NULL list) | high, not executed | `ReaderSpec.AttributeListAsWritten` (shown by `ReaderSpec.AttributesReusedAsWritten`) | `ReaderSpec.AttributeList` (used by `ReaderSpec.Query` and `LdapReader.Reader.Query`; `ReaderSpec.QueryIgnoresPreviousAttributes` is proved with it) |

## Left out

- The constructors' URI copy, `ldap_initialize` and protocol-version selection (ldapReader.h:55-139, 340-391) are library setup. The model's constructor is `_start` on a connection that is already initialised. The two binding constructors are that constructor followed by `BindAs`. `isInitialized` is always true on a constructed object, so it is not a field.
- `pageCookie` is never set by `_start`, so the first request carries whatever the memory holds. The model starts with an empty cookie.
- `ldap_create_page_control` (ldapReader.h:413-416) is modelled as failing exactly when the page size is below 1, which the library rejects with `LDAP_PARAM_ERROR`. Its failure when memory runs out is not modelled.
- A successful reply without a page response control makes the source dereference NULL at ldapReader.h:455, before the check at :459. The model's `Directory` always returns the control with a `Paged` reply.
- The `Directory` oracle also stands for `ldap_search_ext_s`, `ldap_parse_result`, `ldap_parse_pageresponse_control` and `ldap_sasl_bind_s`. On a failed search, `result` becomes whatever the oracle says the library stored. On a failed parse, the cookie is unchanged.
- Memory management is not modelled: the `new`/`memcpy`/`delete[]` copies, the freed but not cleared `result` in `query`, the leaked exception objects, and `clearBerval` releasing a library array with `delete[]`. `ClearBerval` returns the values it frees.
- `LdapReader.Reader.Query`: the stale `entry` after a new query points into the freed previous result in the source. The model keeps it as a position in the previous page's value.
- C strings are `seq<char>` without NUL bytes, so `strlen(pass)` is the password's length. Attribute names are looked up exactly; LDAP's case-insensitive matching of attribute descriptions is not modelled.
- `resultCount` (ldapReader.h:185-189, 455) is commented out in the source as unreliable, so it is left out.
- `va_list`: the attribute names are a sequence, so `attrNum` always equals the number of names.
- The criticality flag is passed as a C `int`, so any non-zero character, 'F' included, asks for critical paging. No setter exists, so the flag is always 'T' and is carried through as a character.
- main.cpp is a demo driver with console output, so it is not part of this model.
