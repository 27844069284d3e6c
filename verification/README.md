# web2art: publishing a screenshot to a Frame TV and trimming its gallery

web2art renders a web page, uploads the screenshot to a Samsung Frame TV as
art, makes it the current art, and can then trim the TV's stored-art gallery
to a maximum number of items. This Dafny project models `sendToTV` in
`index.js`. The model has three parts:

- **Gallery eviction policy.** Eviction runs only when `--max-items-on-device`
  is set and positive. It lists the TV's art, sorts it newest first with a
  stable sort, and deletes every item past the bound (`Eviction`,
  `NewestFirst`, `Ranking`).
- **Upload file type.** This is `extname(imagePath).slice(1)`, using Node's
  POSIX `path.extname` (`ImagePath`).
- **Call sequence.** `sendToTV` makes its calls on the TV client in a fixed
  order. The model records them as a trace of `Call` values. The TV is
  abstract: the id `upload` returns and the list `getAvailableArt` returns
  are inputs (`Session`).

Modules:

| file | module | contents |
|---|---|---|
| gallery.dfy | `Gallery` | `ArtItem(id, date)`, `Id`, `Option`, `Ids` |
| newest_first.dfy | `NewestFirst` | the stable newest-first sort and its order, permutation, stability and uniqueness lemmas |
| ranking.dfy | `Ranking` | `Rank`: an item's sorted position, computed from the input list alone |
| eviction.dfy | `Eviction` | the guard, kept and evicted items, the ids passed to `deleteArt` |
| image_path.dfy | `ImagePath` | `extname` and the upload `fileType` |
| session.dfy | `Session` | the call trace of `sendToTV` and of the top-level run |

Sorting is modelled as a stable insertion sort (`NewestFirst.Sort`).
ECMAScript requires `Array.prototype.sort` to be stable but does not say
which algorithm it uses. `SortIsTheStableNewestFirstOrder` shows that this
does not matter: any newest-first list that keeps equal-dated items in their
listed order is `Sort` of the input. `Ranking.Rank` describes the same order
without sorting. An item's rank is the number of strictly newer items plus
the number of items with the same date listed before it. The item lands at
that position, so it is kept exactly when its rank is below the bound.

`index.js` has no `try`/`finally`: a rejected call ends the run without
calling `tv.close()` (line 80) or `browser.close()` (line 39), so the model
describes only the path on which every call succeeds and makes no claim about
release on failure.

## Model

| member | source | states |
|---|---|---|
| NewestFirst.SortIsNewestFirstPermutation | index.js:71 | after `items.sort((a, b) => b.date - a.date)` the list is in non-increasing date order and holds exactly the fetched items, with multiplicity |
| NewestFirst.SortIsStable | index.js:71 | for every date, the items of that date appear in the sorted list in the order the device listed them |
| NewestFirst.SortIsTheStableNewestFirstOrder | index.js:71 | any newest-first arrangement that keeps each date's items in device order equals the model's sort, so the result does not depend on which stable sort the engine uses |
| NewestFirst.NewestFirstIsUnique | index.js:71 | two newest-first lists that agree, date by date, on their items and order are the same list |
| Ranking.SortPlacesByRank | index.js:71 | the item at input position i lands at sorted position Rank(i): after all strictly newer items and after equally dated items listed before it |
| Ranking.RankRespectsOrder | index.js:71 | a newer item ranks before an older one, and of two items with the same date the one listed first ranks first |
| Ranking.RankIsInjective | index.js:71 | distinct input positions get distinct sorted positions |
| Eviction.DeletionFor | index.js:72-74 | a deletion is issued exactly when the count exceeds `maxItems`; it carries exactly count - maxItems ids, the ids of the sorted items from position `maxItems` on, in sorted order |
| Eviction.EvictionPartition | index.js:71-74 | kept and deleted items together are exactly the fetched items; min(maxItems, count) are kept; every kept date is at least every deleted date |
| Eviction.EvictionFollowsListOrder | index.js:71-74 | within each date, the kept items followed by the deleted ones are that date's items in device order, so ties are broken by the device's order |
| Eviction.KeptIffRankBelowBound | index.js:71-74 | the item at input position i is kept exactly when its rank is below `maxItems`, and it sits at that rank among the kept items (or at rank - maxItems among the deleted ones) |
| Eviction.WithinBoundKeepsAll | index.js:72 | with no more items than the bound nothing is deleted and every item is kept |
| Eviction.FiveItemsBoundThree | index.js:65-77 | items dated 5, 3, 4, 1, 2 with bound 3 keep the items dated 5, 4, 3 and delete the ids of the items dated 2 and 1, in that order |
| ImagePath.FileType | index.js:56 | the upload `fileType` is `extname(imagePath)` without its leading dot (empty when there is no extension), and contains no dot and no separator |
| ImagePath.FileTypeOfStemAndExtension | index.js:56 | a path `stem.ext`, with a dot-free extension and a stem that does not end in a separator, uploads with file type `ext` |
| ImagePath.NoFileTypeIff | index.js:56 | the file type is empty exactly when the base name is `..`, has no dot after its first character, or ends in a dot |
| ImagePath.DefaultFileTypeIsPng | index.js:26 | the screenshot path `screenshot.png` uploads with file type `png` |
| Session.SendToTV | index.js:45-81 | the calls follow the protocol: connect to the host, upload with the derived file type and matte options, set as current exactly the id `upload` returned, then list the art only if the bound is set and positive, delete at most once and only the evicted ids, and close last |
| Session.GalleryCalls | index.js:64-77 | the guarded block makes no call unless `maxItems` is set and positive; when it runs it lists the art and then deletes exactly when the count exceeds the bound, passing the evicted ids |
| Session.Run | index.js:83-94 | the program's run uploads with file type `png`; it lists the art exactly when `--max-items-on-device` is given and positive, and then deletes once, exactly the evicted ids, when the device holds more items than that; with the option unset it makes exactly four calls |
| Session.ProtocolClosesOnce | index.js:79-80 | in every trace that follows the protocol, `close` is the last call and appears nowhere else |

## Left out

- Argument parsing, version output and the matte type and colour choice lists (index.js:11-24) are argparse configuration. Matte options are passed through as strings. The bound is an `Option<int>`, because argparse's `int` type yields an integer or leaves the option unset.
- `captureScreenshot` (index.js:26-43) is left out. It launches a browser, navigates, waits for the render delay and writes the screenshot, and all of these are foreign calls and timing. The model keeps one fact about it: it returns its default path `screenshot.png`, because no option supplies `path`.
- `readFile` (index.js:52) is file I/O. Its bytes are a parameter of `SendToTV`.
- The TV client is `samsung-frame-connect`, which is not part of this model. Its constructor options, wire protocol and answers are not modelled. The id that `upload` returns and the list that `getAvailableArt` returns are inputs.
- Console logging through `fresh-console` is a side effect only and is not modelled.
- Failure paths are not modelled. Each awaited call can reject. The code catches nothing, so a rejection ends the run without closing the TV session or the browser. The model describes only the success path.
- Dates are integers. The comparator `b.date - a.date` is modelled as integer comparison: numeric and `Date` values (the latter through `valueOf`) are compared as integers. Values for which `b.date - a.date` is NaN, such as strings or missing dates, make the comparator inconsistent and are not modelled.
- ImagePath.FileType: models Node's POSIX `extname`. The Windows variant is left out, including backslash separators and drive letters.
