# Image gallery pipeline: folder indexer and manifest poller

This project models the two pieces of an image gallery pipeline and proves their properties in Dafny:

- **The folder indexer** (`scripts/build-folder-indexes.cjs`) walks a local mirror of an S3 bucket (`./s3`). It keeps the files whose case-folded extension is one of ten image extensions and gives each one an entry `{app, key, url}`:
  - `app` is the top-level folder;
  - `key` is the `/`-joined path from that folder down;
  - `url` is the public base URL, a `/`, and the key.

  The entries are sorted by app and then by key. Missing configuration or a missing `./s3` stops the run with nothing written.
- **The manifest poller** (`src/components/Images/Gallery.jsx`) keeps a list of items in step with a remote `index.json`. Each tick goes like this:
  - it may send a HEAD request, and stops there when the ETag or Last-Modified header matches the recorded one;
  - otherwise it sends a GET, records the response's tokens, and replaces the items when the body is a JSON array;
  - a failure is displayed;
  - the next tick is scheduled unless the component was torn down.

Modules:

- `Wrappers` (`wrappers.dfy`): `Option`, `Result`, and JavaScript truthiness of a string that may be absent.
- `Collation` (`collation.dfy`): the string order used for sorting, with its total-order lemmas.
- `FolderIndex` (`folder_index.dfy`): the indexer. The file system is a tree of `Node`s (`File`, `Dir`, `Other`). `walk` and `main` are methods with loops (`Walk`, `BuildIndex`). Each is proved against a specification function (`Walked`, `Index`). Those functions are tied to an independent description of the tree: `ImageAt`, a path of names leading to an image file, and `CountImages`, the number of image files.
- `Gallery` (`gallery.dfy`): the poller. The class `Poller` has one field per ref and per state variable. `FetchIndex`, `Tick`, `Effect`, `TimerFires` and `Cleanup` change those fields step by step. `FetchIndex`, `Tick`, `Effect` and `TimerFires` are proved against the pure functions `FetchSpec` and `TickSpec`; `Cleanup`'s ensures give the two fields it writes. The lemmas about the poller are stated over those functions. Network results are parameters: `HeadOutcome` (threw / not ok / ok with optional ETag and Last-Modified) and `GetOutcome` (threw / not ok with a status / ok with optional tokens and a body that parsed to some JSON value or failed to parse). The clock reading `now` is a parameter too.

Notes on the code as written:

- Keys carry no configurable prefix. The indexer reads no prefix variable.
- One combined index is produced, and every entry has an `app`.
- Sibling names are ordered by `localeCompare`, not by plain lexical order. This model uses the lexicographic order of Dafny characters (Unicode scalar values) in all comparisons (see Left out).
- A GET whose body is not an array still records the response's ETag and Last-Modified. The tokens are stored before the body is checked.
- The success path of `fetchIndex` does not check whether the component was torn down. `TickSpec` on an unmounted state still replaces the items and clears the error. Only the error display and the rescheduling are suppressed.

## Model

| member | source | states |
|---|---|---|
| `FolderIndex.PublicBaseUrl` | scripts/build-folder-indexes.cjs:10-12 | A non-empty override is the base URL. Otherwise, with bucket and region set, the base URL is `https://<bucket>.s3.<region>.amazonaws.com`. |
| `FolderIndex.LastDot` | scripts/build-folder-indexes.cjs:19 | The position found holds a '.' and no '.' follows it. With no position, the name has no '.' at all. |
| `FolderIndex.Extname` | scripts/build-folder-indexes.cjs:19 | There is an extension exactly when the name is not ".." and its last '.' is not its first character. The extension is then the proper suffix from that last '.', with no other '.'. For "..", and for names without a dot or whose only dot opens them, it is empty. |
| `FolderIndex.IsImage` | scripts/build-folder-indexes.cjs:14-20 | A name is an image exactly when some suffix after a non-empty stem, lower-cased, is one of the ten allowed extensions. |
| `FolderIndex.ExtensionIsImageSuffix` | scripts/build-folder-indexes.cjs:18-20 | Testing the lower-cased `extname` against the allow-list is the same as the suffix test above, in both directions. |
| `FolderIndex.IsImageIgnoresCase` | scripts/build-folder-indexes.cjs:19 | Lower-casing a name never changes whether it is an image. |
| `FolderIndex.IsImageAccepts` | scripts/build-folder-indexes.cjs:14-20 | "A.PNG" and "photo.tar.Jpeg" are images. |
| `FolderIndex.IsImageRejects` | scripts/build-folder-indexes.cjs:14-20 | ".png", "notes.txt" and "png" are not images. |
| `FolderIndex.Walk` | scripts/build-folder-indexes.cjs:22-48 | Visiting the listing in order, recursing into directories and pushing image files, yields exactly `Walked`. |
| `FolderIndex.WalkedSound` | scripts/build-folder-indexes.cjs:28-45 | Every walked entry carries the given app, and its url is base + "/" + key. Its key is the relative base, a "/", and the names along a path that reaches an image file. Directories are never emitted. |
| `FolderIndex.WalkedComplete` | scripts/build-folder-indexes.cjs:28-45 | Every image file reachable through directories is walked, and its path of names is its key. |
| `FolderIndex.WalkedCount` | scripts/build-folder-indexes.cjs:28-45 | The walk emits exactly as many entries as there are image files at any depth. |
| `FolderIndex.IndexSound` | scripts/build-folder-indexes.cjs:64-73 | Every index entry comes from an image file at depth two or more, so root files are never indexed. Its app is the top-level folder. Its key is the `/`-joined chain of names from that folder, so it starts with app + "/" and has no "s3/" prefix. Its url is base + "/" + key. |
| `FolderIndex.IndexComplete` | scripts/build-folder-indexes.cjs:64-73 | Every image file under a top-level folder is in the index, tagged with that folder. |
| `FolderIndex.IndexCount` | scripts/build-folder-indexes.cjs:62-73 | The index has one entry per image file under the top-level folders. |
| `FolderIndex.EntryLeTotal` | scripts/build-folder-indexes.cjs:76-80 | Any two entries are ordered one way or the other by (app, key). |
| `FolderIndex.EntryLeTransitive` | scripts/build-folder-indexes.cjs:76-80 | The (app, key) order is transitive. |
| `FolderIndex.EntryLeAntisymmetric` | scripts/build-folder-indexes.cjs:76-80 | Entries that are ordered both ways have the same app and key. |
| `FolderIndex.Insert` | scripts/build-folder-indexes.cjs:76-80 | Inserting into a sorted sequence gives a sorted sequence holding one more copy of the element. |
| `FolderIndex.SortEntries` | scripts/build-folder-indexes.cjs:76-80 | The sorted index is ordered by app, then by key, and is a permutation of its input. |
| `FolderIndex.SortedUnique` | scripts/build-folder-indexes.cjs:75-80 | Two sorted sequences holding the same entries, whose urls are fixed by their keys, are equal. |
| `FolderIndex.IndexDeterministic` | scripts/build-folder-indexes.cjs:75-80 | Any sorted permutation of the walked entries is the index `SortEntries` produces. |
| `FolderIndex.PermutedListing` | scripts/build-folder-indexes.cjs:24-26 | A listing and any permutation of it, such as the listing sorted by name, are related by `SameListing`: the same listing up to the order of entries at every depth. |
| `FolderIndex.PermutedSameListing` | scripts/build-folder-indexes.cjs:24-26 | A listing whose entries each match, as `SameTree`, the entries of a second listing is `SameListing` with every permutation of that second listing. So sorting every listing at every depth, bottom up, gives a `SameListing` of the original tree. |
| `FolderIndex.WalkedIgnoresOrder` | scripts/build-folder-indexes.cjs:24-33 | Walking listings related by `SameListing` emits the same entries, possibly in another order. |
| `FolderIndex.IndexIgnoresOrder` | scripts/build-folder-indexes.cjs:64-73 | Root listings related by `SameListing` give the same index entries before the final sort, possibly in another order. |
| `FolderIndex.OrderIndependent` | scripts/build-folder-indexes.cjs:24-26 | For root listings related by `SameListing`, the sorted index is the same. The order in which folders and files are visited, at any depth, does not change the output. |
| `FolderIndex.ThreeFileScenario` | scripts/build-folder-indexes.cjs:22-80 | app1/a.png, app1/b.txt and app2/c.webp give exactly the entries for app1/a.png and app2/c.webp, in that order. |
| `FolderIndex.BuildIndex` | scripts/build-folder-indexes.cjs:50-80 | A missing bucket or region fails first, and a missing ./s3 second; neither produces entries. Otherwise the result is sorted by (app, key) and is a permutation of all walked entries. It has one entry per image file under the top-level folders, and every url is base + "/" + key. |
| `Collation.LeTotal` | scripts/build-folder-indexes.cjs:77-79 | The string order compares any two strings. |
| `Collation.LeAntisymmetric` | scripts/build-folder-indexes.cjs:77-79 | Strings ordered both ways are equal. |
| `Collation.LeTransitive` | scripts/build-folder-indexes.cjs:77-79 | The string order is transitive. |
| `Collation.LeReflexive` | scripts/build-folder-indexes.cjs:77-79 | Every string is ordered with itself. |
| `Gallery.Decimal` | src/components/Images/Gallery.jsx:46 | The status is written as a non-empty run of decimal digits, with no leading zero, whose value read back by `DecimalValue` is the status. |
| `Gallery.DecimalInjective` | src/components/Images/Gallery.jsx:46 | Distinct statuses give distinct texts. |
| `Gallery.Record` | src/components/Images/Gallery.jsx:48-51 | A response token replaces the stored one only when it is present and non-empty. Otherwise the stored one stays. |
| `Gallery.FetchSpec` | src/components/Images/Gallery.jsx:20-60 | A refresh ends unchanged exactly when change detection is on, HEAD is ok, and a non-empty ETag or Last-Modified equals the stored one. Then only the HEAD was sent and the tokens stay. A HEAD that throws or is not ok falls through to the GET. A non-ok GET fails with "Failed to load index (<status>)" and keeps the tokens. An ok GET records its tokens whatever its body. A body that does not parse fails with the parser's message. Only an array body updates the items. Any other parsed body fails with "index.json is not an array". |
| `Gallery.TickSpec` | src/components/Images/Gallery.jsx:65-76 | Items change only on a successful refresh, which also clears the error. A failure shows its message, or "Failed to load index" when the message is empty, and only while mounted. The next tick is scheduled exactly when not torn down. A tick that is not the first never uses the cache-buster URL. |
| `Gallery.HeadCheckIsOptimisation` | src/components/Images/Gallery.jsx:24-43 | Unless the HEAD ends the refresh, the refresh has the same outcome and tokens as one without change detection, plus the one HEAD request. |
| `Gallery.RecordedEtagShortCircuits` | src/components/Images/Gallery.jsx:24-51 | After a GET records a non-empty ETag, the next tick, with change detection on, whose HEAD reports it sends no GET. Items, error and tokens stay as they were. |
| `Gallery.TeardownQuiesces` | src/components/Images/Gallery.jsx:68-75 | A tick that completes after teardown schedules nothing and displays no error. |
| `Gallery.ItemsComeFromArrayBodies` | src/components/Images/Gallery.jsx:53-59 | After any sequence of ticks, the items are either the ones held before or exactly the array body of one GET response. Malformed data never replaces them. |
| `Gallery.EtagScenario` | src/components/Images/Gallery.jsx:20-60 | The first tick gets ETag "v1" and body [{key: "x"}] through the cache-buster URL. The second tick's HEAD reports "v1", so it sends no GET, keeps the items and reschedules. |
| `Gallery.Poller.constructor` | src/components/Images/Gallery.jsx:12-18 | A new poller has no items, no error, no tokens and no pending timer, and it is not torn down. |
| `Gallery.Poller.FetchIndex` | src/components/Images/Gallery.jsx:20-60 | Fields, requests and thrown message are exactly as `FetchSpec` describes. Items and error change only on success. |
| `Gallery.Poller.Tick` | src/components/Images/Gallery.jsx:65-76 | The new state and the requests are exactly those of `TickSpec`. |
| `Gallery.Poller.Effect` | src/components/Images/Gallery.jsx:62-78 | Marks the poller mounted and runs the first tick, which leaves exactly one timer pending. |
| `Gallery.Poller.TimerFires` | src/components/Images/Gallery.jsx:73 | The pending timer is consumed and a non-first tick runs. All its requests use the plain manifest URL, and one timer is pending afterwards. |
| `Gallery.Poller.Cleanup` | src/components/Images/Gallery.jsx:80-83 | Marks the poller torn down with no timer pending, so no further tick can be scheduled. |

## Left out

- `localeCompare`: its collation depends on the locale. Every comparison here uses the lexicographic order of Dafny characters (Unicode scalar values), which is a total order. It differs from JavaScript's UTF-16 `<` only when a character above U+FFFF is compared with one in U+E000–U+FFFF.
- The sorting of each directory's listing before it is walked (line 26) and of the top-level folder names (line 68) is not modelled. Folders and files are visited in listing order. Under this order that order does not matter: sorting every listing, at every depth, gives a `SameListing` of the original (`PermutedListing` for one listing, `PermutedSameListing` for a listing whose entries were themselves reordered below), and `OrderIndependent` proves that listings reordered at any depth give the same sorted index. With the real `localeCompare` this argument can fail. Distinct strings can compare equal, such as a precomposed "é" and "e" followed by a combining accent. The stable final sort then keeps visit order for such entries, so the sibling sort can change the output.
- The `|| ""` fallbacks in the comparator are not modelled. Every entry's `app` and `key` are strings, so the fallbacks never apply.
- `path.posix.join` is modelled as joining with "/". This holds because listing names are never "", "." or ".." and contain no "/". The same assumption is behind `path.extname`.
- `toLowerCase` is modelled for ASCII letters only. No other character lower-cases to a letter of an allowed extension.
- File-system calls (`readdirSync`, `existsSync`, `mkdirSync`, `writeFileSync`) are replaced by the `Node` tree, an `Option` for the root, and a `Result` for the outcome. A `./s3` that exists but is not a readable directory, and other read errors, end the real run with an exception. The model does not capture that.
- Symbolic links and other special entries are `Other` nodes. They are neither walked nor emitted.
- The generated module text is not modelled: the timestamp, `JSON.stringify` formatting and the `export default` wrapper. Console output, the two error texts and the exit codes are not modelled either. `IndexError` records which check failed.
- `fetch`, HTTP caching options, promises, `setTimeout` timing (`pollMs` is carried but no time passes), React rendering, `useMemo` and the `Images` component are not modelled.
- A tick is atomic. A teardown during a tick is modelled only as a tick that completes on an already torn-down state (`TeardownQuiesces`). The effect can also re-run while a tick is in flight, when its dependencies change. That case is not modelled.
- JSON numbers are integers. The poller never inspects array elements, so their shape is not checked.
- `e?.message` on a thrown value that is not an `Error` is not modelled. Every failure carries a message string, and an empty one falls back to the default.
