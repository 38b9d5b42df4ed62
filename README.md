# Venbha gallery helpers: a verified model

This project models the two pieces of logic in the Venbha plate-decor site's data layer that go
beyond passing values to the hosted backend.

- **Storage helpers** (`src/lib/storageUtils.js`), in module `StorageUtils`:
  - `compressImage` fits an image's pixel size to a bound (1920×1080 by default).
    Only the longer side is bounded. A landscape image is capped on its width; a portrait or
    square image is capped on its height. The other side follows the aspect ratio through
    `Math.round`.
  - The upload helpers name the stored object `folder/<Date.now()>_<random>.<ext>`, where `<ext>`
    comes from the original file name.
    Both helpers default to the bucket `Gallery`, with folder `images` for images and `videos`
    for videos (`DefaultBucket`, `DefaultImageFolder`, `DefaultVideoFolder`).
  - Image uploads are always labelled `image/jpeg`. When the fitted size has a side of zero
    pixels, compression rejects and no upload is made.
  - The video upload takes the browser's MIME type. When there is none, it infers the type from
    the extension and falls back to `video/mp4`.
- **Database helpers** (`src/lib/databaseUtils.js`), in module `DatabaseUtils`:
  - Each table is a sequence of rows.
  - The reorder helpers give item `i` of an `n`-item list the display order `n - i`. They issue
    one update per item, keyed by its id.
  - The fetch helpers filter the rows, order them by `display_order` descending with
    `created_at` descending as tie-break, and, for the home gallery, take the first six.
  - The insert helpers fill in a default alt text when none is given.

The central result is the drag-and-drop round trip. The admin reorders the complete list of
gallery images (or home-gallery images). Fetching afterwards returns the ids in the admin's
order, and the home gallery returns the first six of them (`GalleryReorderRoundTrip`,
`HomeReorderRoundTrip`).

`Math.round(a·m/b)` on non-negative integers is computed as `(2·a·m + b) / (2·b)`. Its contract
states the rounding rationally: the result `r` satisfies `-b < 2·(r·b - a·m) <= b`. In words,
`r` is the nearest integer to `a·m/b`, with halves rounded up. `RoundUnique` shows this
condition fixes `r`. `Date.now()` and the `Math.random()` suffix are parameters: a clock reading
`now: nat` rendered in decimal, and an opaque string.

Files: `options.dfy` (an `Option` type), `storage_utils.dfy`, `database_utils.dfy`.

## Model

| member | source | states |
|---|---|---|
| `StorageUtils.Round` | src/lib/storageUtils.js:28-33 | `Math.round` of a non-negative quotient: the result is within one half of `num/den`, and halves round up |
| `StorageUtils.RoundUnique` | src/lib/storageUtils.js:28-33 | exactly one integer meets that rounding condition, so the condition fully specifies `Math.round` |
| `StorageUtils.RoundIsZero` | src/lib/storageUtils.js:28-33 | `Math.round` of a non-negative quotient is 0 exactly when twice the numerator is below the denominator |
| `StorageUtils.Fit` | src/lib/storageUtils.js:22-36 | landscape over the width bound: width becomes `maxW` and height becomes the nearest integer to `h·maxW/w`. Portrait or square over the height bound: height becomes `maxH` and width becomes the nearest integer to `w·maxH/h`. Otherwise both sides are unchanged |
| `StorageUtils.FitNeverEnlarges` | src/lib/storageUtils.js:26-36 | the fitted width is at most the original width, and the fitted height at most the original height |
| `StorageUtils.FitBoundsGoverningSide` | src/lib/storageUtils.js:26-36 | a landscape image always ends at most `maxW` wide and no taller than wide. A portrait or square image always ends at most `maxH` high and no wider than high |
| `StorageUtils.LandscapeHeightNotBounded` | src/lib/storageUtils.js:11-36 | the bound on the non-governing side is not enforced: with the defaults, 2000×1900 becomes 1920×1824, taller than 1080 |
| `StorageUtils.FitZeroSide` | src/lib/storageUtils.js:26-36 | the short side rounds to 0 exactly when the image is too elongated: a landscape image over the width bound ends 0 high iff `2·h·maxW < w`; a portrait or square one over the height bound ends 0 wide iff `2·w·maxH < h` |
| `StorageUtils.Compressed` | src/lib/storageUtils.js:22-50 | the compressed file keeps the original name, is typed `image/jpeg` and is never larger in either dimension |
| `StorageUtils.CompressOutcome` | src/lib/storageUtils.js:38-54 | compression resolves with the fitted JPEG exactly when the fitted canvas has at least one pixel each way; otherwise it rejects with `Failed to compress image` |
| `StorageUtils.CompressImage` | src/lib/storageUtils.js:22-54 | the step-by-step reassignment of `width`/`height`, then the encode that fails on an empty canvas, yields exactly `CompressOutcome` |
| `StorageUtils.Extension` | src/lib/storageUtils.js:85 | `split('.').pop()` is the longest dot-free suffix of the name: it has no `.`, is a suffix, and is preceded by `.` unless it is the whole name |
| `StorageUtils.ExtensionOfDotlessName` | src/lib/storageUtils.js:85 | a name without a `.` is its own extension |
| `StorageUtils.ExtensionAfterLastDot` | src/lib/storageUtils.js:85-87 | whatever precedes the last `.`, the extension is the text after it |
| `StorageUtils.Decimal` | src/lib/storageUtils.js:86 | the rendered timestamp is a non-empty string of decimal digits |
| `StorageUtils.DecimalRoundTrip` | src/lib/storageUtils.js:86 | reading the rendered timestamp back gives the timestamp |
| `StorageUtils.PathTemplate` | src/lib/storageUtils.js:86-87 | the filled template lies under `folder/` |
| `StorageUtils.StampFollowsFolder` | src/lib/storageUtils.js:86-87 | right after `folder/` the path holds the stamp, followed by `_` |
| `StorageUtils.StoragePath` | src/lib/storageUtils.js:85-87 | the upload path lies under `folder/` and has the same extension as the original file name |
| `StorageUtils.DistinctStampsDistinctTemplates` | src/lib/storageUtils.js:84-87 | filled templates whose `_`-free stamps differ are different paths |
| `StorageUtils.DistinctStampsDistinctPaths` | src/lib/storageUtils.js:152-155 | two uploads into one folder at different clock readings get different paths, whatever their random suffixes and names |
| `StorageUtils.Lower` | src/lib/storageUtils.js:160 | lower-casing keeps the length and lowers each letter in place |
| `StorageUtils.VideoContentType` | src/lib/storageUtils.js:157-172 | the video content type is never empty. A non-empty browser type is used as given. Otherwise the result is one of `video/mp4`, `video/webm`, `video/quicktime` |
| `StorageUtils.MimeForExtension` | src/lib/storageUtils.js:160-164 | a lower-cased extension names `video/webm` (`webm`), `video/quicktime` (`mov`) or otherwise `video/mp4`: always one of the three, never empty |
| `StorageUtils.InferVideoMimeType` | src/lib/storageUtils.js:158-164 | the chain of `if`s reassigning `mimeType`, followed by the `video/mp4` fallback, computes exactly `VideoContentType` |
| `StorageUtils.UpperCaseExtensionRecognised` | src/lib/storageUtils.js:160-163 | the extension decides case-insensitively: an untyped `CLIP.MOV` is `video/quicktime` |
| `StorageUtils.ImageUpload` | src/lib/storageUtils.js:79-116 | an upload is made exactly when compression succeeds (otherwise the helper returns failure and uploads nothing). The file sent is the compressed image, `Compressed`: the fitted size, typed `image/jpeg`, under the original name. It goes to the given bucket with cache control 3600 and no upsert, is labelled `image/jpeg`, and its path is `StoragePath`: under `folder/` with the original extension |
| `StorageUtils.StoredImageWithinBounds` | src/lib/storageUtils.js:81-92 | the stored image is no larger than the original on either side, and its governing side is within the default bound: at most 1920 wide for a landscape image, at most 1080 high otherwise |
| `StorageUtils.ThinImageNotUploaded` | src/lib/storageUtils.js:79-116 | with the default bucket and folder, a 3841×1 image fits to 1920×0 and is not uploaded, while a 3840×1 image is |
| `StorageUtils.VideoUpload` | src/lib/storageUtils.js:150-173 | a video upload sends the original file, unchanged, to the given bucket with cache control 3600 and no upsert. Its content type is the one `VideoContentType` infers, which is never empty, and its path is `StoragePath`: under `folder/` with the original extension |
| `StorageUtils.ImageLabelIgnoresExtension` | src/lib/storageUtils.js:79-95 | with the default bucket and folder, a `rose.png` upload is made, stored at a `.png` path but labelled `image/jpeg` |
| `DatabaseUtils.InsertSorted` | src/lib/databaseUtils.js:13-14 | inserting a row into a fetch-ordered sequence keeps it fetch-ordered and adds exactly that row |
| `DatabaseUtils.SortByOrder` | src/lib/databaseUtils.js:13-14 | the result is ordered by `display_order` descending, then `created_at` descending, and is a permutation of the input |
| `DatabaseUtils.OfTypeCounts` | src/lib/databaseUtils.js:12 | the `.eq('type', t)` filter keeps every row of type `t`, as often as the table holds it, and no other row |
| `DatabaseUtils.FetchGalleryImages` | src/lib/databaseUtils.js:9-14 | the result is fetch-ordered and is exactly the image rows of `gallery_images` |
| `DatabaseUtils.FetchGalleryVideos` | src/lib/databaseUtils.js:34-39 | the result is fetch-ordered and is exactly the video rows of `gallery_images` |
| `DatabaseUtils.FetchHomeGalleryImages` | src/lib/databaseUtils.js:117-122 | the result has `min(6, n)` rows drawn from the table, is fetch-ordered, and every row it leaves out comes after every row it returns |
| `DatabaseUtils.OrderUpdates` | src/lib/databaseUtils.js:200-205 | one update per item, keyed by that item's id. The order values strictly decrease along the list (so they are pairwise distinct) and lie in `1..n` |
| `DatabaseUtils.OrderValuesForced` | src/lib/databaseUtils.js:200-203 | any `n` order values that strictly decrease and lie in `1..n` are `n - i` at position `i`, so the contract of `OrderUpdates` alone fixes the values |
| `DatabaseUtils.OrderUpdateValues` | src/lib/databaseUtils.js:203 | item `i` of an `n`-item list gets the order value `n - i` |
| `DatabaseUtils.ApplyUpdate` | src/lib/databaseUtils.js:201-204 | one `.update().eq('id', id)` changes the order value of exactly the rows with that id and keeps the table's length and row order |
| `DatabaseUtils.ApplyUpdatesEffect` | src/lib/databaseUtils.js:200-207 | after all updates each row carries the last order value issued for its id, and is unchanged if no update targets its id |
| `DatabaseUtils.ReorderRowsEffect` | src/lib/databaseUtils.js:200-205 | after a reorder, rows keep their place and every field except the display order. A row whose id is not listed is untouched. With distinct listed ids, the row of item `k` gets `n - k` |
| `DatabaseUtils.UpdateGalleryOrder` | src/lib/databaseUtils.js:198-213 | the gallery table is reordered and the home gallery table is left untouched |
| `DatabaseUtils.UpdateHomeGalleryOrder` | src/lib/databaseUtils.js:220-235 | the same rule is applied to the home gallery table, and the gallery table is left untouched |
| `DatabaseUtils.ReorderKeepsWellFormed` | src/lib/databaseUtils.js:198-235 | a reorder of either table keeps each table holding rows of its own shape |
| `DatabaseUtils.SortedUnique` | src/lib/databaseUtils.js:13-14 | when display orders are distinct, the fetch order is uniquely determined by the rows: it is their strictly decreasing arrangement |
| `DatabaseUtils.SortFollowsList` | src/lib/databaseUtils.js:13 | rows carrying the order values a list assigns sort, in fetch order, into the list's order |
| `DatabaseUtils.ReorderThenSort` | src/lib/databaseUtils.js:200-205 | reordering a table by a list of exactly its ids, each once, and then sorting in fetch order gives the list's order |
| `DatabaseUtils.GalleryReorderRoundTrip` | src/lib/databaseUtils.js:9-14 | when the list holds exactly the image ids, each once, reorder then fetch-images returns the ids in the list's order |
| `DatabaseUtils.VideosUnaffectedByImageReorder` | src/lib/databaseUtils.js:34-39 | a reorder that lists no video id leaves the fetched video list exactly as it was |
| `DatabaseUtils.HomeReorderRoundTrip` | src/lib/databaseUtils.js:117-122 | on the home gallery, reorder then fetch returns the first `min(6, n)` listed ids, in the list's order |
| `DatabaseUtils.AltOrDefault` | src/lib/databaseUtils.js:69 | `alt \|\| fallback`: a present, non-empty alt text is kept; otherwise the fallback is used, so the result is never empty when the fallback is not |
| `DatabaseUtils.GalleryInsertRecord` | src/lib/databaseUtils.js:62-71 | the gallery insert copies url, storage path and type. Its alt text is the given one if non-empty, else `Gallery Image`. It carries the signed-in user's id |
| `DatabaseUtils.HomeInsertRecord` | src/lib/databaseUtils.js:145-153 | the home gallery insert is the same, with `Home Gallery Image` as the default alt text |

## Left out

- Every call into the hosted backend's SDK is left out: authentication (`getUser`, whose user is a parameter here), table insert/select/update/delete, storage upload/remove and `getPublicUrl`. So is the `{ success, error }` object the helpers return when one of those calls fails. These are foreign calls. The model covers what the helpers compute and send, plus the effect of updates and fetches on a table held as a sequence.
- `deleteGalleryItem`, `deleteHomeGalleryImage` and `deleteImageFromStorage` are left out. Each is a single backend call with no logic of its own.
- The browser side of `compressImage` is left out: `FileReader`, `Image` decoding, canvas drawing and JPEG encoding at quality 0.85. So are the failures `Failed to read file` and `Failed to load image`. `Failed to compress image` is modelled only where the pixel-size rule decides it, an empty canvas; other encoder failures are left out. Only the pixel-size rule, that rejection and the resulting file's name and type are modelled.
- Round: models `Math.round` on the exact quotient. JavaScript divides in double precision first. The two agree whenever the floating-point error of the quotient is below `1/(2·side)`, which holds for any realistic pixel size, but extreme sizes are not covered.
- The bounds are naturals. The source only calls `compressImage` with its integer defaults.
- The `Promise.all` fan-out of the reorder updates is modelled as applying them one after another, in list order. When the list repeats an id, this gives "last write wins"; the concurrent order and partial failures are not modelled.
- Rows that tie on both `display_order` and `created_at` keep their table order in the model. The backend leaves their order unspecified.
- The display order of a row is taken to be a non-null integer. The table schema is not part of this model. A NULL `display_order` would sort first under a descending `ORDER BY` in PostgreSQL, and the model does not cover that.
- Inserts are modelled as the record sent. The columns the backend fills in (`id`, `created_at`, and `display_order` when the record has none) are not modelled.
- The home gallery's six-image upload cap is not part of this model. It lives in the dashboard UI, not in these helpers; only the fetch limit of six is modelled.
- Lower: lower-cases ASCII letters only. `toLowerCase` also folds non-ASCII letters, which no recognised extension contains.
- Decimal: renders every clock reading as plain digits. JavaScript switches to exponent notation from 10^21 on, far beyond any `Date.now()`.
- The item `type` is the enumeration image/video, and `alt` is either absent or a string. Other falsy or non-string values a caller might pass are not modelled.
- `src/lib/contactUtils.js`, `src/lib/collectionUtils.js` and the pages, components, routing and authentication context are not part of this model. They are CRUD wrappers, a form-submission HTTP call and UI code.
