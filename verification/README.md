# Fetch history of the Terabox downloader, modelled in Dafny

The front end keeps a short history of the files it has fetched in one
browser-storage slot, under the key `"terabox-history"`. The list is newest
first. Three rules maintain it:

- **Expiry** (`cleanExpiredHistory`): an entry is kept only if it was fetched
  strictly later than 24 hours (86 400 000 ms) before now. An entry whose date
  does not parse is dropped.
- **Insert** (`addToHistory`): load the stored list, expire it, drop any entry
  with the new item's `file_name`, put the new item in front, cut the list to
  `maxItems` (default 10), write it back and return it.
- **Read** (`getCleanedHistory`): an absent or empty slot gives `[]` and is not
  written. Otherwise the stored list is expired, and it is written back only
  when its length changed.

The files:

- `Wrappers.dfy`: `Option` and `Result`.
- `Sequences.dfy`: `Filter` (`Array.prototype.filter`), `Take` (`slice(0, n)`)
  and order-preserving subsequences, with the general lemmas about them.
- `History.dfy`: the history entry, the expiry rule `Expire`, the list
  `Inserted` that `addToHistory` builds, and a run of inserts at one instant (`Replay`),
  proved equal to an independent definition (`Recency`) cut to `maxItems`
  when every added entry is fresh. `Recency` is the added entries in reverse
  when their names are distinct.
- `HistoryStore.dfy`: the storage slot. `Load` gives the list a slot stands
  for. `AddEffect` and `ReadEffect` say what each call returns and writes. The
  class `Store` has a `slot` field and a ghost write counter. Its methods
  `AddToHistory` and `GetCleanedHistory` read and overwrite the slot the way
  the source does, and they are proved equal to those effect functions.

A present slot holds one of three kinds of text, because the source treats
them differently. The empty string counts as false, just as an absent key
does. Text that `JSON.parse` rejects, or that parses to a non-array or to an
array with a `null` element, makes the call throw before anything is
written. Otherwise the text encodes a list. The clock reading `now` is a
parameter, and `fetchedAt` is the already-parsed instant in milliseconds.
`None` stands for an invalid date, which compares false against every date.

On `Garbled` text the source throws (historyUtils.ts:34-36, :18-19, :63-64),
so `AddEffect` and `ReadEffect` return `Failure` and write nothing.

## Model

| member | source | states |
|---|---|---|
| `Sequences.Filter` | Frontend/src/lib/historyUtils.ts:18-21 | filtering never makes a list longer |
| `Sequences.Take` | Frontend/src/lib/historyUtils.ts:47 | `slice(0, n)` gives a prefix of length min(n, length) |
| `History.Expire` | Frontend/src/lib/historyUtils.ts:12-22 | definition of `cleanExpiredHistory` with `now` passed in; the cleaned list is never longer than the input |
| `History.ExpireMembership` | Frontend/src/lib/historyUtils.ts:15-21 | an entry is in the cleaned list exactly when it is in the input and its fetch time is strictly greater than now − 86 400 000 |
| `History.ExpireOnlyFresh` | Frontend/src/lib/historyUtils.ts:18-21 | every entry of the cleaned list is fresh |
| `History.ExpireDropsBoundary` | Frontend/src/lib/historyUtils.ts:19-20 | an entry fetched exactly at the cutoff, or with an invalid date, is never kept |
| `History.ExpireCount` | Frontend/src/lib/historyUtils.ts:18-21 | every copy of a fresh entry is kept and no copy of a stale one |
| `History.ExpireIsSubsequence` | Frontend/src/lib/historyUtils.ts:18-21 | the cleaned list is an order-preserving subsequence of the input |
| `History.ExpireLength` | Frontend/src/lib/historyUtils.ts:18-21 | the cleaned list is at most as long as the input; it is equally long exactly when it equals the input, which is exactly when every entry is fresh |
| `History.ExpireIdempotent` | Frontend/src/lib/historyUtils.ts:12-22 | cleaning twice at the same instant equals cleaning once |
| `History.ExpireKeepsDistinctNames` | Frontend/src/lib/historyUtils.ts:18-21 | cleaning a list with distinct names leaves distinct names |
| `History.Inserted` | Frontend/src/lib/historyUtils.ts:39-47 | definition of the list `addToHistory` builds from the stored list; it holds at most `maxItems` entries |
| `History.WithoutName` | Frontend/src/lib/historyUtils.ts:42-44 | definition of the filter that drops entries named like the new item; it never makes the list longer |
| `History.InsertedShape` | Frontend/src/lib/historyUtils.ts:39-47 | the new list has at most `maxItems` entries and is empty exactly when `maxItems` is 0; the new item comes first with no expiry check; every later entry is a fresh stored entry with another name |
| `History.InsertedTail` | Frontend/src/lib/historyUtils.ts:42-47 | after the head comes a prefix of the stored list with expired and same-name entries removed, cut short only when the list is full |
| `History.InsertedKeepsSurvivors` | Frontend/src/lib/historyUtils.ts:39-47 | a fresh stored entry with another name is dropped only when the new list is full |
| `History.InsertedKeepsDistinctNames` | Frontend/src/lib/historyUtils.ts:42-47 | if the stored names are distinct, so are the names of the new list |
| `History.Replay` | Frontend/src/lib/historyUtils.ts:30-53 | definition of a run of `addToHistory` calls from an empty slot at one instant; the list holds at most `maxItems` entries |
| `History.RecencyFacts` | Frontend/src/lib/historyUtils.ts:42-47 | the uncapped newest-first list of added names holds only added entries, under distinct names, covering every added name |
| `History.RecencyLatest` | Frontend/src/lib/historyUtils.ts:42-47 | every entry of the newest-first reference list was added, and no entry of the same name was added after it |
| `History.RecencyOrder` | Frontend/src/lib/historyUtils.ts:42-47 | of two entries of the newest-first reference list, the earlier one was added after the last add of the later one's name |
| `History.ReplayKeepsMostRecent` | Frontend/src/lib/historyUtils.ts:30-53 | when every added entry is fresh, a run of inserts from an empty slot equals the capped `Recency`: the `maxItems` most recently added names, each in its latest version, newest first (order of `Recency` by `RecencyOrder`, versions by `RecencyLatest`); its length is min(`maxItems`, number of distinct names added) |
| `History.RecencyOfDistinct` | Frontend/src/lib/historyUtils.ts:42-47 | when the added names are distinct, the newest-first list of added entries is exactly the added entries in reverse |
| `History.ReplayOfDistinct` | Frontend/src/lib/historyUtils.ts:30-53 | inserting fresh entries with distinct names, all at one instant, keeps the last `maxItems` of them, newest first, so once the list is full each insert evicts the oldest |
| `HistoryStore.Load` | Frontend/src/lib/historyUtils.ts:34-36 | definition of the list a slot stands for: absent or empty gives `[]`; loading fails exactly on `Garbled` text |
| `HistoryStore.AddEffect` | Frontend/src/lib/historyUtils.ts:34-52 | an insert fails exactly on `Garbled` text; a successful insert writes exactly the list it returns; a failed one writes nothing |
| `HistoryStore.AddEffectFacts` | Frontend/src/lib/historyUtils.ts:34-52 | after a successful insert the slot stands for the returned list, which starts with the new item, holds at most `maxItems` entries, and after its head holds only fresh entries with other names |
| `HistoryStore.ReadEffect` | Frontend/src/lib/historyUtils.ts:59-72 | definition of what `getCleanedHistory` returns and writes; it fails exactly on `Garbled` text, and a write happens only for a stored list and writes exactly the returned list |
| `HistoryStore.ReadEffectUnstored` | Frontend/src/lib/historyUtils.ts:60-63 | an absent or empty slot reads as `[]` without a write; `Garbled` text fails without a write |
| `HistoryStore.ReadEffectFacts` | Frontend/src/lib/historyUtils.ts:63-71 | a read returns the stored list cleaned at `now`, so it holds no expired entry; it writes exactly when some stored entry had expired; afterwards the slot stands for the returned list |
| `HistoryStore.ReadTwice` | Frontend/src/lib/historyUtils.ts:59-72 | a second read at the same instant, with nothing in between, writes nothing and returns the same list |
| `HistoryStore.OperationsKeepNamesDistinct` | Frontend/src/lib/historyUtils.ts:30-72 | both operations keep the stored names pairwise distinct |
| `HistoryStore.Store.SetItem` | Frontend/src/lib/historyUtils.ts:50 | a write replaces the slot with the encoded list and counts one write |
| `HistoryStore.Store.AddToHistory` | Frontend/src/lib/historyUtils.ts:30-53 | returns, stores and counts writes exactly as `AddEffect` says, with `maxItems` defaulting to 10 |
| `HistoryStore.Store.GetCleanedHistory` | Frontend/src/lib/historyUtils.ts:59-72 | returns, stores and counts writes exactly as `ReadEffect` says |

## Left out

- JSON encoding: the slot holds the list itself. An encode-then-parse is taken to give back the same entries. `Garbled` stands for text that `JSON.parse` rejects, for a value that is not an array (the source then throws on `.filter`, line 18), and for an array with a `null` element (it throws on the field access, line 19). An array element that is a non-null primitive, such as `1` or `"x"`, has no `fetchedAt`, so it is an `Encoded` entry with `fetchedAt == None`, which every clean drops.
- Date parsing and the clock: `fetchedAt` is an already-parsed `Option<int>` in milliseconds, and `now` is passed in. A cutoff outside JavaScript's date range, which would itself be an invalid date, is not modelled.
- Browser storage: only the one key is modelled. `setItem` always succeeds here; a storage-quota exception is not modelled.
- The file-metadata fields other than `file_name` (the `TeraboxFile` type is not part of this model). Only `file_name` takes part in the logic.
- HistoryStore.Store.AddToHistory: `maxItems` is a natural number. A negative, fractional or non-numeric `maxItems` (where `slice` drops entries from the end or truncates) is not modelled.
- History.ReplayOfDistinct: like ReplayKeepsMostRecent, proved only for a run at one instant with every added entry fresh.
- History.ReplayKeepsMostRecent: states the length bound for a run of inserts at one instant with every added entry still fresh. Runs where time advances and entries expire between inserts are not covered.
- Two browser tabs interleaving their read-modify-write of the slot: the source does nothing about this, and the model is sequential.
