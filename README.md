# OAuth token lifecycle: cache slot, backing file and refresh

This project models the token layer of a small video-platform backend. That layer has two parts.

- **The token store** (`token_management.py`) keeps one credential record. The record sits in a module-level cache slot and in one JSON file, `token_info.json`. `save_token_info` overwrites both. `load_token_info` answers from the cache when the cache is populated. Only when the cache is empty does it read the file, and it promotes a valid record from the file into the cache. Its `is_token_valid` accepts a record only if it has an `expires_at` later than now.
- **The refresh manager** (`token_manager.py`). `refresh_access_token` asks the provider for a new access token. It does so only if the credential is expired and has a refresh token. It builds a new six-field record, keeps the old refresh token when the provider sends none, saves the record through the store and returns it. A provider failure becomes HTTP 500 "Failed to refresh token". The manager's own `is_token_valid` means "not expired and has a refresh token".

Modules:
- `Wrappers`: `Option` and `Result`.
- `TokenManagement`: `TokenInfo`, `FileState` (`Missing | Malformed | Holds(record)`), the store's validity test and `LoadDecision`. It also holds the `TokenStore` class, with fields `cache` and `file` and methods `Save` and `Load`.
- `TokenManager`: the refresh decision, the `TokenEndpoint` stand-in for the provider and `RefreshAccessToken`. It also holds the manager's validity test.
- `Lifecycle`: sequences of operations over the pair (cache, file), with inductive lemmas about them.

External inputs:
- The wall clock is an integer `now`.
- `Credentials.expired` from google-auth is a boolean `expired`.
- The provider's refresh endpoint is a `TokenEndpoint` object. Its fixed `answer` function gives the reply and its `requests` log records each round trip. That log is what lets "no provider call" be stated at all.

Behaviour of the code worth knowing:
- A populated but expired cache makes `load_token_info` return `None`. It does not fall back to the file (token_management.py:16-21).
- A refreshed record carries no `expires_at` (token_manager.py:37-44). The store therefore rejects it at every time. `Lifecycle.RefreshBlocksAllLoads` proves that after a successful refresh every load in a run of loads that follows it returns `None`, even though the file holds the new record.
- An expired credential without a refresh token is returned unchanged (token_manager.py:51-52). No "re-authentication required" error is raised.
- The two `is_token_valid` functions are different predicates. `TokenManager.ValidityTestsDisagree` shows that each accepts a record the other rejects. On the second witness, which carries `expires_at`, the source's manager would raise a `TypeError` instead of returning False (see "## Left out").

## Model

| member | source | states |
|---|---|---|
| `TokenManagement.IsTokenValid` | token_management.py:38-42 | the store's validity test fails closed: a valid record always carries an `expires_at`, and it lies strictly after now |
| `TokenManagement.NoExpiryIsInvalid` | token_management.py:38-42 | a record without `expires_at` is never valid |
| `TokenManagement.ValidIffExpiresLater` | token_management.py:38-42 | valid exactly when `expires_at` is present and strictly after now; expiry equal to now counts as expired |
| `TokenManagement.InvalidStaysInvalid` | token_management.py:40-41 | a record invalid at some time stays invalid at every later time |
| `TokenManagement.LoadDecision` | token_management.py:15-36 | anything returned is valid now and is what the cache then holds; it is the cached record or, on an empty cache, the file's record; the cache changes only by filling an empty slot with the file's record; a valid cached record, or on an empty cache a valid file record, is always handed back |
| `TokenManagement.TokenStore.constructor` | token_management.py:6-7 | the store starts with an empty cache over the given file, so cache and file agree |
| `TokenManagement.TokenStore.Save` | token_management.py:9-13 | afterwards the cache holds exactly the record and the file holds exactly the record, so they agree |
| `TokenManagement.TokenStore.Load` | token_management.py:15-36 | never changes the file; the result and the new cache are those of `LoadDecision` on the old cache and file; a cache that agreed with the file still agrees |
| `TokenManagement.LoadCacheHit` | token_management.py:16-18 | a valid cached record is returned and cache and file stay as they were |
| `TokenManagement.LoadStaleCacheIgnoresFile` | token_management.py:16-21 | an invalid cached record gives `None`, the same as with a missing file: the file is not consulted |
| `TokenManagement.LoadColdUnreadableFile` | token_management.py:23-36 | with an empty cache, a missing or malformed file gives `None` and the cache stays empty |
| `TokenManagement.LoadColdFileRecord` | token_management.py:26-32 | with an empty cache, the file's record is returned and cached when valid; otherwise `None` and the cache stays empty |
| `TokenManagement.SaveThenLoad` | token_management.py:9-36 | a load right after a save returns the saved record when it is valid, `None` when it is not, and keeps it cached |
| `TokenManager.RefreshedRecord` | token_manager.py:37-44 | the refreshed record is invalid to the store at every time; it carries the new access token; its refresh token is the provider's when non-empty, else the old one, so a refresh token is never lost |
| `TokenManager.RefreshDecision` | token_manager.py:31-52 | without the guard the input is returned and nothing is saved; an error is always "Failed to refresh token" (500) with nothing saved; a saved record is the returned one and has no expiry; a changed result is always saved; a guarded call that the provider answers saves exactly the refreshed record |
| `TokenManager.TokenEndpoint.Refresh` | token_manager.py:36 | one round trip: the request is logged and answered by the endpoint's fixed answer function |
| `TokenManager.RefreshAccessToken` | token_manager.py:31-52 | exactly one provider request, built from the credential, when expired with a refresh token, and none otherwise; the result and the store change are those of `RefreshDecision`; when nothing is saved, cache and file are unchanged; a cache that agreed with the file still agrees |
| `TokenManager.IsTokenValid` | token_manager.py:54-66 | a credential the manager calls valid is not expired and holds a non-empty refresh token |
| `TokenManager.NeedsRefresh` | token_manager.py:33 | the refresh guard, expired and holding a non-empty refresh token, only admits credentials the manager calls invalid |
| `TokenManager.ManagerValidIff` | token_manager.py:54-66 | the manager's validity test is false when expired, false without a refresh token, and true exactly when neither holds |
| `TokenManager.ValidMeansNoRefresh` | token_manager.py:31-66 | a credential the manager calls valid is returned unchanged by a refresh, with nothing saved, whatever the provider would answer |
| `TokenManager.RefreshKeepsRefreshToken` | token_manager.py:39 | after a successful refresh the refresh token is the provider's if non-empty, else the input's, and is present |
| `TokenManager.RefreshedRecordFields` | token_manager.py:37-47 | the saved record is the returned one: new token, copied token URI, client id, client secret and scopes, no `expires_at` |
| `TokenManager.RefreshFailureSavesNothing` | token_manager.py:35-50 | a provider error raises "Failed to refresh token" (500) and saves nothing |
| `TokenManager.ValidityTestsDisagree` | token_manager.py:54-66 | the manager's and the store's validity tests each accept a record the other rejects |
| `Lifecycle.StepKeepsInSync` | token_manager.py:31-52 | refresh, and likewise save and load (token_management.py:9-36), each keep a populated cache equal to the file's record |
| `Lifecycle.RunKeepsInSync` | token_management.py:9-36 | that agreement holds after any sequence of saves, loads and refreshes |
| `Lifecycle.StaleCacheBlocksLoads` | token_management.py:16-21 | a cached record invalid at some time makes every load at that time or later return `None` and change nothing, whatever the file holds |
| `Lifecycle.RefreshThenLoadIsNone` | token_manager.py:37-45 | a load right after a successful refresh returns `None` |
| `Lifecycle.RefreshBlocksAllLoads` | token_manager.py:37-45 | after a successful refresh every load in a following run of loads returns `None`, at any times, while the file holds the new record |

## Left out

- File write failures: `open` or `json.dump` raising inside `save_token_info` (token_management.py:11-12) is not modelled. Every save is taken to succeed. In the source the cache is written before the file, so a failed write would leave the two different, and inside `refresh_access_token` that exception would also become "Failed to refresh token".
- JSON encoding and decoding are not modelled; the file is the abstract `FileState`. A file whose JSON is valid but not an object is outside `FileState`. So are other I/O errors raised by `open` on read, and a file that does not decode as text (`UnicodeDecodeError`), neither of which the source catches.
- Records are values. In the source the cache holds the very dict passed to `save_token_info`, `load_token_info` hands that dict back, and `refresh_access_token` returns the dict it saved. A caller editing such a dict would change the cache but not the file. No code in the repository does so, and `TokenStore.Consistent` and `Lifecycle.RunKeepsInSync` assume it.
- Records have a fixed field set. Extra or missing keys in the JSON object are not represented.
- ISO-8601 parsing and the clock are not modelled: `expires_at` is an integer on the same clock as `now`. The `ValueError`/`TypeError` that `fromisoformat` or a naive/aware comparison can raise (token_management.py:40-41) is library behaviour and is not modelled.
- google-auth internals: how `Credentials(**token_info)` is built, how `expired` is computed and what `refresh` does over the network are inputs. `expired` is a boolean and the reply comes from `TokenEndpoint.answer`. A `TypeError` from passing an `expires_at` key to `Credentials` is not modelled. After a refresh, the token URI, client id, client secret and scopes are taken from the input record.
- The `if not credentials` branch of the manager's `is_token_valid` (token_manager.py:56-58) is not modelled: a `Credentials` object is always truthy, so the branch never runs.
- `TokenManager.TokenEndpoint.Refresh`: answers by a fixed function of the request, so one endpoint object cannot succeed once and then reject the same refresh token. `Lifecycle` supplies a separate reply per refresh operation, so its lemmas cover that case.
- `fetch_token` and the OAuth `Flow` (token_manager.py:22-29) are an external authorization-code exchange. Its result enters the model only as an arbitrary `TokenInfo` passed to `Save` (`Lifecycle.SaveOp`).
- Logging, environment-variable lookups (token_manager.py:10-20) and the web routes of main.py are not modelled. There is no concurrency in the core.
