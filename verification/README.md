# Image uploader and photo carousel — a Dafny model

This project models the two pieces of decision logic in the wish-card front end's
media components:

- **The image uploader** (`ImageUploader`). A batch of offered files is reduced to
  `(MIME type, size)` candidates. Given the current image list and the
  `maxImages` / `maxSizeMB` props, the model decides which candidates join the list
  and which single message the component shows. It also models removal of a
  thumbnail by position and when the drop zone is disabled.
- **The photo carousel** (`PhotoGallery`). This is a state machine over
  `{currentIndex, isFullscreen, isAnimating, prefersReducedMotion, kenBurns}`, plus
  the direction still pending in the Ken Burns timeout. Every click handler, timer
  firing, key press, media-query change and effect run is a discrete event. The
  image list matters only through its length `n`.

Modules:

- `Wrappers` holds `Option`.
- `Decimal` renders `${n}` for a natural number, which the messages quote.
- `Uploader` and `UploaderProperties` model `src/components/ImageUploader.tsx`.
- `Gallery` and `GalleryProperties` model `src/components/animations/PhotoGallery.tsx`.

The uploader's `images` prop belongs to the parent. The model's list is the list
*after* the parent has applied every `onImagesChange` call. `Reaction.changed`
records whether the handler called `onImagesChange`, and with which list.

## Model

| member | source | states |
|---|---|---|
| Uploader.Validate | src/components/ImageUploader.tsx:21-31 | A file passes exactly when its type starts with `image/` and its size is at most `maxSizeMB` MiB. A non-image is rejected as such whatever its size, because the type is checked first. An image over the limit gets the size message. |
| UploaderProperties.SizeBoundary | src/components/ImageUploader.tsx:26-30 | A file of exactly `maxSizeMB * 1048576` bytes is admitted. One byte more is rejected with the size message. |
| Uploader.Examined | src/components/ImageUploader.tsx:39-41 | The loop looks at no more files than the batch holds. When it looks at any, it stays within the free slots. It stops short of the batch only when the slots are used up. |
| Uploader.Admitted | src/components/ImageUploader.tsx:38-46 | The collected files are at most the window's size, and each is a window file that passes validation. |
| UploaderProperties.AdmittedEnumeratesAdmissible | src/components/ImageUploader.tsx:41-46 | The collected files are exactly the passing files of the window, in order. There are increasing positions covering every passing position and no failing one. |
| UploaderProperties.LastRejectionIsLatest | src/components/ImageUploader.tsx:41-46 | The per-file message is absent exactly when every examined file passes. Otherwise it is the rejection of the last failing file. |
| Uploader.Ingest | src/components/ImageUploader.tsx:33-57 | A null batch changes nothing, the message included. Otherwise the old list is kept as a prefix and every appended file passes validation. The bound `images.length <= maxImages` is preserved. `onImagesChange` is called exactly when the list grew, and with the new list. A batch larger than the free slots shows the capacity message. |
| Uploader.HandleFiles | src/components/ImageUploader.tsx:33-57 | The loop as written computes the same outcome as `Ingest`. It overwrites the message on each rejection, collects passing files and then applies the capacity override. |
| UploaderProperties.IngestMessage | src/components/ImageUploader.tsx:36-50 | The capacity message wins over any per-file message when the batch overflows. When the batch fits, every file is examined. The message is then absent exactly when all pass, and otherwise it is the last failing file's. |
| UploaderProperties.IngestAdmitsExactly | src/components/ImageUploader.tsx:38-53 | The new list is the old list followed by exactly the passing files among the first `min(files.length, remaining)`, in batch order. |
| UploaderProperties.AdmissionIgnoresTail | src/components/ImageUploader.tsx:41 | Files past the examined window never influence the outcome. |
| UploaderProperties.OversizedFileInShortWindow | src/components/ImageUploader.tsx:39-53 | Take 3 held images, the default limits and a batch of 4 whose 2nd file is 10 MB. Only file 1 joins, so the list ends at 4 images. The message is "You can only upload 5 images total". |
| UploaderProperties.MessageInjective | src/components/ImageUploader.tsx:23-49 | Distinct rejections render to distinct texts, including the number each one quotes. |
| Decimal.Show | src/components/ImageUploader.tsx:49 | `${n}` is a non-empty digit string with no leading zero. |
| Decimal.ShowInjective | src/components/ImageUploader.tsx:27 | Distinct numbers render to distinct strings, because parsing inverts rendering. |
| Uploader.IsDisabled | src/components/ImageUploader.tsx:89 | The uploader is disabled exactly when the admission loop would examine no file of a one-file batch; then it examines none of any batch. |
| UploaderProperties.DisabledAdmitsNothing | src/components/ImageUploader.tsx:89-111 | While `isDisabled` holds, a batch (a drop still reaches `handleFiles`) admits nothing and does not notify the parent. A non-empty batch shows the capacity message. |
| UploaderProperties.EnabledAdmitsOne | src/components/ImageUploader.tsx:39-54 | While not disabled, one passing file is appended, reported, and leaves no message. |
| Uploader.RemoveImage | src/components/ImageUploader.tsx:84-87 | Removal always clears the message and always notifies the parent with the filtered list. |
| UploaderProperties.DropIndexCuts | src/components/ImageUploader.tsx:85 | Filtering out index `k` removes exactly element `k` when `k` is in range. Otherwise it returns the list unchanged. |
| UploaderProperties.RemoveImageKeepsOthers | src/components/ImageUploader.tsx:84-87 | A valid `k` leaves `n-1` images with the others in their relative order. An invalid `k` leaves the list unchanged. The message is cleared either way. |
| UploaderProperties.RemoveUndoesAdmission | src/components/ImageUploader.tsx:84-87 | Removing the image a one-file batch just added restores the previous list. |
| UploaderProperties.ReplayKeepsCapacity | src/components/ImageUploader.tsx:39-87 | `images.length <= maxImages` survives any sequence of batches and removals. |
| Gallery.JsRem | src/components/animations/PhotoGallery.tsx:62-69 | JavaScript's truncating `%` agrees with Dafny's on a non-negative dividend and stays strictly within `(-n, n)`. |
| Gallery.NextIndex | src/components/animations/PhotoGallery.tsx:62 | On `n > 0` images the index stays in `[0, n)`. From a valid slide it moves to the following one and wraps from `n-1` to 0. With no images, or from NaN, the result is NaN. |
| Gallery.PrevIndex | src/components/animations/PhotoGallery.tsx:69 | The index stays in `[0, n)`. From a valid slide it moves to the preceding one, and prev from 0 gives `n-1`. With no images it is NaN. |
| Gallery.GoToNext | src/components/animations/PhotoGallery.tsx:59-64 | While `isAnimating` this is a no-op. Otherwise it raises the guard and moves to the next index, and nothing else changes. |
| Gallery.GoToPrev | src/components/animations/PhotoGallery.tsx:66-71 | The same guard applies, moving to the previous index. |
| Gallery.ReleaseGuard | src/components/animations/PhotoGallery.tsx:63 | The 500 ms timeout lowers the guard and changes nothing else. |
| Gallery.SelectDot | src/components/animations/PhotoGallery.tsx:181 | A dot click sets the index directly and changes nothing else, including the guard. |
| Gallery.OpenFullscreen | src/components/animations/PhotoGallery.tsx:162 | Opening sets `isFullscreen` and changes nothing else. |
| Gallery.CloseFullscreen | src/components/animations/PhotoGallery.tsx:200 | Closing clears `isFullscreen` and changes nothing else. |
| Gallery.HandleKey | src/components/animations/PhotoGallery.tsx:73-84 | Outside the lightbox no key changes anything. In the lightbox ArrowLeft is prev, ArrowRight is next and Escape closes. Any other key leaves the state unchanged. |
| Gallery.Tick | src/components/animations/PhotoGallery.tsx:49-57 | An interval firing is a next exactly when `n > 1`, the lightbox is closed and reduced motion is off. Otherwise nothing happens. |
| Gallery.MotionPreference | src/components/animations/PhotoGallery.tsx:18-25 | The media query's value becomes the reduced-motion flag, and nothing else changes. |
| Gallery.KenBurnsEffect | src/components/animations/PhotoGallery.tsx:28-46 | The previous timeout is cleared. With reduced motion or no images the transform is untouched and nothing is scheduled. Otherwise the transform resets to `{1, 0, 0}` and the chosen direction is scheduled. |
| Gallery.KenBurnsTimeout | src/components/animations/PhotoGallery.tsx:41-45 | The scheduled direction, if any, becomes the transform, and nothing is left pending. |
| GalleryProperties.CycleClimbs | src/components/animations/PhotoGallery.tsx:62 | Each next-then-release round below the last slide moves exactly one slide forward and leaves every other field as it was. |
| GalleryProperties.CyclicClosure | src/components/animations/PhotoGallery.tsx:59-64 | `n` next-then-release rounds on `n` images return to the very same state. |
| GalleryProperties.NextPrevInverse | src/components/animations/PhotoGallery.tsx:59-71 | Next then prev, and prev then next, with releases in between, restore the state. |
| GalleryProperties.GuardBlocksNavigation | src/components/animations/PhotoGallery.tsx:59-77 | While a transition runs, the arrows, the arrow keys and the interval change nothing. |
| GalleryProperties.SecondClickIgnored | src/components/animations/PhotoGallery.tsx:59-71 | A navigation raises the guard, so repeating it before the release has no further effect. |
| GalleryProperties.DotClickBypassesGuard | src/components/animations/PhotoGallery.tsx:181 | During a transition a dot click still jumps and leaves the guard raised, while next does not move. |
| GalleryProperties.SingleImageNavigation | src/components/animations/PhotoGallery.tsx:59-71 | With one image, next and prev keep slide 0 but still raise the guard. |
| GalleryProperties.EmptyGalleryKeyGivesNaN | src/components/animations/PhotoGallery.tsx:73-86 | With no images and the lightbox still open, an arrow key makes the index NaN. |
| GalleryProperties.AutoAdvanceGate | src/components/animations/PhotoGallery.tsx:49-57 | With the gate closed, any number of ticks leaves the state unchanged. This holds in particular under reduced motion or in the lightbox. With the gate open, a tick is a next click. |
| GalleryProperties.FullscreenKeysMatchControls | src/components/animations/PhotoGallery.tsx:73-84 | In the lightbox ArrowRight and ArrowLeft act as the next and prev buttons. Escape acts as the close button and keeps the index. Any other key does nothing. |
| GalleryProperties.KeysIgnoredOutsideFullscreen | src/components/animations/PhotoGallery.tsx:79-84 | Outside the lightbox no key changes anything. |
| GalleryProperties.LightboxRoundTrip | src/components/animations/PhotoGallery.tsx:162-200 | Opening keeps the index. Opening then closing, by button or by Escape, restores the state. |
| GalleryProperties.DirectionsAreTheFourDiagonals | src/components/animations/PhotoGallery.tsx:31-36 | The palette is exactly the four vectors with scale 1.1 and `x, y` in `{2, -2}`, with no repetition. |
| GalleryProperties.KenBurnsResetThenPick | src/components/animations/PhotoGallery.tsx:28-46 | With motion allowed and images present, the effect shows the neutral transform. Its timeout then applies the chosen diagonal, and the index is unchanged. |
| GalleryProperties.ReducedMotionFreezesKenBurns | src/components/animations/PhotoGallery.tsx:28-46 | Once reduced motion is on and nothing is pending, the transform never changes under any events until the preference is withdrawn. |
| GalleryProperties.InitialStaysInRange | src/components/animations/PhotoGallery.tsx:12-16 | The initial state is slide 0, unguarded, outside the lightbox, with a neutral transform and nothing pending. On a non-empty carousel every deliverable event sequence from it keeps the index on an existing slide. |
| GalleryProperties.RunKeepsIndexInRange | src/components/animations/PhotoGallery.tsx:59-181 | On a non-empty carousel every event the component can deliver keeps the index on an existing slide. |

## Behaviour of the code worth knowing

- **Admission window.** Only the first `min(files.length, maxImages - images.length)` files are looked at. A rejected file inside that window is not replaced by a later valid one. With 3 images held and a batch of 4 whose 2nd file is oversized, one file joins (4 in all).
- **Size limit is inclusive.** The size check is `size > limit`, so a file of exactly the limit passes, although the message says "less than".
- **No single-image guard.** `goToNext` and `goToPrev` have no "fewer than two images" check. With one image they keep the slide but still raise the guard.
- **Dot clicks skip the guard.** A dot click neither checks nor sets the transition guard.
- **No index reset.** Nothing resets `currentIndex` when the image count changes. The next navigation brings an out-of-range index back into range through `%`.
- **Handles are never released.** Display handles (`URL.createObjectURL`) are created on every render and never revoked.

## Left out

- Rendering, `dragActive`, `handleDrag`, `handleDrop` and `handleInputChange` are left out. They are UI plumbing that only forwards the batch to `handleFiles`, and `FilesOffered` stands for both routes.
- File payloads are left out. A file is only its MIME type and byte size.
- Decimal.Show: JavaScript numbers are doubles. The model covers exact naturals below 1e21, where `${n}` is the plain digit string. It does not model the exponent form (`${1e21}` is "1e+21"). It also does not model the loss of exactness above 2^53 in `File.size` or `maxSizeMB * 1024 * 1024`.
- `maxImages` and `maxSizeMB` are modelled as natural numbers. Fractional or negative prop values, which JavaScript would accept, are not modelled.
- `URL.createObjectURL` is left out. It is a browser call whose handles the code never revokes.
- Real time is left out. The 500 ms guard timeout, the 100 ms Ken Burns timeout and the 5000 ms interval are explicit events, and the interval's phase is not modelled.
- The interval's stale `goToNext` closure is not modelled. A tick is a next under the gate, as the current handler would act.
- `window.matchMedia` and listener registration are not modelled. The initial read and every change are the `PreferenceChanged` event. Adding and removing the keydown listener is modelled only as "keys act only in the lightbox".
- `Math.random` is the environment's choice of a direction index below 4.
- React's effect scheduling is left to the environment. The model does not force a `KenBurnsRun` after every change of index, preference or count, and it does not model unmount teardown.
- Rendering the transform only for the current slide and only without reduced motion is display logic and is left out.
- `ShareLink`, `ThemeSelector`, `SenderInfo`, the home page and the animation re-exports are not part of this model. They hold no admission or navigation logic.
