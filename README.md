# leaf-colors core, modelled in Dafny

This project models the sequential logic of three Python files of the
leaf-colors repository:

- `graphics/gen_frames.py`, the frame generator of the leaf-colour animation.
  Observations, in chronological order, are grouped by the day they were made.
  On each change of day, the day's group joins the active list and one SVG
  frame is rendered for that day. One carry-forward frame follows for every
  day skipped before the next observation. Rendering a frame (`makeSVG`) walks
  the active list: an observation above 0.1 is faded by 0.1 and drawn, and one
  at or below 0.1 is removed. Because the removal shortens the list under the
  walk, the observation right after a removed one is skipped in that frame:
  neither faded, drawn nor removed.
- `leafcolors/img_help.py`, the pixel helpers that find a leaf's colour:
  - `remove_dark` drops the dark pixels;
  - `crop_img` crops to the leaf box;
  - `grab_cut` applies the GrabCut mask and falls back to the original image;
  - `dom_color` chooses what k-means clusters.
- `inatobvs.py`, the iNaturalist fetcher:
  - the constructor's URL checks;
  - the page-parameter rewrite, the page count and the `per_page` parse;
  - the paging loop with its record-key whitelist;
  - the photo URL rewrite of `download`.

Modules:

- `Wrappers`: `Option`, `Result` and Python's exception kinds.
- `PyStr`: the Python built-ins the scripts rely on, with Python's semantics.
  - `str.find` returns -1 when the text is absent.
  - Slicing normalises and clamps its bounds.
  - It also covers `split`, `replace`, `int(...)` and `str(...)`.
- `Dates`: `make_date`, `daterange` and `date_diff`.
- `Render`: one frame, `makeSVG`.
  - The active list is the class `ActiveSet`, whose method `MakeSvg` updates it in place.
  - `Iterate` is the loop exactly as Python runs it. Python walks the list by index while `list.remove` shortens it.
  - `Pass` describes the same walk element by element, and `IterateIsPass` proves the two agree when ids are distinct.
- `Schedule`: `make_frames`.
  - `Frames` is the schedule as a fold.
  - `MakeFrames` is the loop, over an array that it reverses in place, proved to produce `Frames`.
- `ImgHelp`: `remove_dark`, `dom_color`'s choice, `crop_img`, and `grab_cut`'s mask and fallback.
- `INat`: the `INatObvs` class's logic.

Representation choices:

- Opacity is in integer tenths. The 1.1 appended to each colour is 11, and a frame takes off 1. Python compares the drifting float with `.1`. From 1.1, the first eleven values it reaches exceed `.1`, the last being 0.10000000000000014. Only the twelfth, 1.3877787807814457e-16, does not. In tenths these values are 11 down to 0, so removal means 0 or less. An observation that is never skipped, such as one alone (`Schedule.Lifetime`, `Schedule.LifetimeEnd`), is therefore drawn eleven times, the last at (about) zero opacity, and removed in the twelfth frame, as in Python. One that follows a removed one is skipped in that frame (`Render.SkippedAfterRemoval`), so its life is one frame longer, in Python and in the model alike: two observations that entered on the same day both reach 0 tenths in the twelfth frame, the first is removed there and the second in the thirteenth.
- A date in the scheduler is an integer day ordinal.
- The network is a function `fetch` from a URL to the decoded page.
- `download` returns the retrievals it performs, in order. On an error it returns the ones performed before the failure, because Python's `urlretrieve` has already run for them.

## Model

| member | source | states |
|---|---|---|
| Dates.NewDate | graphics/gen_frames.py:26 | `datetime.date(y, m, d)` succeeds exactly for a year in 1..9999, a month in 1..12 and a day within the month (leap years included). A field outside the C `int` range gives `OverflowError`, checked before any range; otherwise the error is `ValueError` |
| Dates.MakeDate | graphics/gen_frames.py:19-26 | `make_date` either gives a date `datetime.date` accepts or raises, and only `IndexError` (a missing field), `ValueError` (a field that is not a number, or out of range) or `OverflowError` (a field beyond a C `int`) |
| Dates.IsoFormat | graphics/gen_frames.py:64 | `str(date)` holds only digits and `-` and has at least 10 characters (`YYYY-MM-DD`, zero-padded); `MakeDateOfIsoFormat` parses it back |
| PyStr.ZeroPad | graphics/gen_frames.py:64 | the zero padding of an ISO field: digits only, at least `width` of them |
| PyStr.ParseIntOfZeroPad | graphics/gen_frames.py:64 | a zero-padded field parses back to its value |
| PyStr.Split | graphics/gen_frames.py:25 | `split('-')` returns at least one piece |
| PyStr.SplitPieces | graphics/gen_frames.py:25 | no piece of `split('-')` contains `-` |
| PyStr.JoinOfSplit | graphics/gen_frames.py:25 | the pieces of `split`, joined with the separator, give the text back |
| PyStr.SplitOfJoin | graphics/gen_frames.py:25 | separator-free pieces joined with the separator split back into the same pieces |
| PyStr.ParseInt | graphics/gen_frames.py:26 | `int(text)` fails only with `ValueError`; a non-empty string of digits gives its decimal value |
| Dates.MakeDateOfFields | graphics/gen_frames.py:25-26 | a proof step, the definition unfolded: when the first three `-`-separated fields parse as integers, `make_date` is `datetime.date` of them, in order year, month, day |
| Dates.MakeDateOfIsoFormat | graphics/gen_frames.py:19-26 | parsing `str(date)` of a valid date gives the date back, also with further `-` fields after it |
| Dates.MakeDateMissingField | graphics/gen_frames.py:25-26 | with one or two fields, indexing the missing field raises `IndexError` |
| Dates.DateRange | graphics/gen_frames.py:29-37 | `daterange(s, e)` yields exactly `s, s+1, ..., e-1` in increasing order, and nothing when `e <= s` |
| Dates.DateDiff | graphics/gen_frames.py:94-103 | `date_diff(s, e)` is `max(0, e - s)` |
| Render.AddText | graphics/gen_frames.py:40-51 | the definition of `addText` as a contract: the source's fixed opening markup, the text whole, then `</tspan></text>`, so the text can be read back from the label |
| Render.AddTextInjective | graphics/gen_frames.py:40-51 | different label texts give different label markup |
| Render.Enter | graphics/gen_frames.py:113 | a definition without a contract: `obv['color'].append(1.1)`, the entry opacity 11 tenths; `FirstRenderAtTen` and `Lifetime` state what follows from it |
| Render.Fade | graphics/gen_frames.py:76 | a definition without a contract: `obv['color'][3] -= 0.1`, one tenth off; `DrawnOnce` states its use |
| Render.CircleOf | graphics/gen_frames.py:80-88 | a definition without a contract: the circle written for one observation, with its id, location, colour and opacity after the fade |
| Render.Circles | graphics/gen_frames.py:67-88 | one circle per drawn observation, in drawing order, each that observation's own |
| Render.Document | graphics/gen_frames.py:66-90 | a frame file is the starter, one circle per drawn observation in drawing order, the date label, the ender |
| Render.ActiveSet.MakeSvg | graphics/gen_frames.py:54-91 | `makeSVG` leaves the list `Iterate` gives, returns the frame dated `current_date + day_count` with what `Iterate` draws, and writes `Document` of that frame |
| Render.ActiveSet.Extend | graphics/gen_frames.py:118 | `all_obvs.extend(more)` appends `more` to the list in place |
| Render.ActiveSet.constructor | graphics/gen_frames.py:108 | the active list starts empty |
| PyStr.IndexOf | graphics/gen_frames.py:78 | the first position of an element, -1 exactly when it is absent |
| Render.RemoveFirst | graphics/gen_frames.py:78 | `list.remove(x)` on a list holding `x` deletes exactly the element at the first position holding `x`, and keeps everything before and after it |
| Render.RemoveFirstRemoves | graphics/gen_frames.py:78 | `list.remove(x)` takes away exactly one occurrence of `x` |
| Render.Iterate | graphics/gen_frames.py:68-79 | the loop as Python runs it, walking by index while `remove` shortens the list: the list never grows, and at most one circle is drawn per element from the walk's start; `IterateIsPass` ties it to `Pass` |
| Render.IterateStep | graphics/gen_frames.py:68-79 | a proof step, the definition of `Iterate` unfolded once: an element passing `> .1` (above 0 tenths) is faded in place and drawn; any other is removed and the index still advances |
| Render.FatesRules | graphics/gen_frames.py:68-79 | in one frame an element is skipped exactly when the one before it was removed, and drawn exactly when not skipped and passing `> .1` (above 0 tenths) |
| Render.IterateIsPass | graphics/gen_frames.py:68-91 | for distinct ids, Python's remove-while-iterating loop does what `Pass` describes element by element |
| Render.FrameContents | graphics/gen_frames.py:68-91 | for distinct ids, the list left holds, in order, the elements not removed (drawn ones faded); the frame draws, in order, the drawn elements at their decremented opacity |
| Render.DrawnOnce | graphics/gen_frames.py:75-81 | for distinct ids, an element passing `> .1` (above 0 tenths) that does not follow a removed one is drawn at its opacity minus one tenth and stays so faded |
| Render.RemovedOnce | graphics/gen_frames.py:75-79 | for distinct ids, an element failing `> .1` (0 tenths or less) that does not follow a removed one is removed and not drawn |
| Render.SkippedAfterRemoval | graphics/gen_frames.py:68-79 | for distinct ids, the element right after a removed one is neither drawn nor faded in that frame |
| Render.FirstRenderAtTen | graphics/gen_frames.py:75-76 | for distinct ids, an observation entering at 1.1 that does not follow a removed one is first drawn at 1.0 |
| Render.SkipExample | graphics/gen_frames.py:68-79 | concretely, for two different ids: in `[a at the end of its life (0 tenths), b at 0.5]`, `a` is removed and `b` is kept unchanged and not drawn |
| Render.IterateKeeps | graphics/gen_frames.py:68-91 | in tenths, the loop keeps every listed opacity within 0..11 and draws only opacities 0..10, of input observations |
| Schedule.Reversed | graphics/gen_frames.py:107 | `list.reverse()` as a value: element `k` becomes element `n-1-k` |
| Schedule.Reverse | graphics/gen_frames.py:107 | `observations.reverse()` in place on the caller's array |
| Schedule.ReversedNewestFirst | graphics/gen_frames.py:107 | a list sorted newest first is chronological once reversed |
| Schedule.FlushCount | graphics/gen_frames.py:116-123 | on a change of day, the frames rendered number `date_diff(today, next)` when above 1, else 1 |
| Schedule.Advance | graphics/gen_frames.py:115-128 | a definition without a contract: one loop iteration; `AdvanceShape` and `AdvanceSound` give its properties |
| Schedule.AdvanceShape | graphics/gen_frames.py:112-128 | one loop iteration sets `today` to the observation's day and puts the observation last in the day's group; it only appends frames, none on the same day and `FlushCount` of them on a change of day |
| Schedule.RenderDays | graphics/gen_frames.py:119-123 | the frames of one flush are dated `today, today+1, ...` |
| Schedule.RenderFlush | graphics/gen_frames.py:119-123 | the flush as a loop of `makeSVG` calls produces `RenderDays` |
| Schedule.RunDays | graphics/gen_frames.py:112-128 | the loop over the observations leaves `today`, `today_obvs`, `all_obvs` and the frames as `Run` says |
| Schedule.Start | graphics/gen_frames.py:108-110 | a definition without a contract: empty lists, `today` the first observation's day; `Frames` gives the `IndexError` for an empty list |
| Schedule.Run | graphics/gen_frames.py:112-128 | a definition without a contract: the loop over the observations as a fold of `Advance`; `RunDates`, `RunDays` and `AdvanceSound` state its properties |
| Schedule.Frames | graphics/gen_frames.py:106-131 | the schedule as a fold: `IndexError` exactly for an empty list (`observations[0]`), otherwise the frames |
| Schedule.MakeFrames | graphics/gen_frames.py:106-131 | `make_frames` reverses the caller's list in place and renders exactly `Frames` of the reversed list; an empty list raises `IndexError` |
| Schedule.RunDates | graphics/gen_frames.py:112-128 | after `k` chronological observations, `today` is the latest day and one frame exists for each earlier day from the first |
| Schedule.FrameDates | graphics/gen_frames.py:106-131 | for chronological input the frames are dated with each day from the first to the last `observed_on`, exactly once, in increasing order |
| Schedule.AdvanceSound | graphics/gen_frames.py:115-128 | one loop iteration keeps every stored entry an input observation no later than `today` |
| Schedule.DrawnNotBefore | graphics/gen_frames.py:113-131 | for chronological input, no frame draws an observation made after its date, and drawn opacities lie within 0..10 tenths (0 standing for Python's last value, about 1.4e-16) |
| Schedule.Lifetime | graphics/gen_frames.py:68-81 | an observation alone is drawn in eleven frames, at 10, 9, ..., 1, 0 tenths, one step less each frame |
| Schedule.LifetimeEnd | graphics/gen_frames.py:75-79 | its twelfth frame removes it without drawing it, as the drifted float does in Python |
| Schedule.TwoDaysApart | graphics/gen_frames.py:106-131 | two observations two days apart give the first day's frame, one carry-forward frame, and the last day's frame with both |
| ImgHelp.RemoveDark | leafcolors/img_help.py:11-18 | `remove_dark` returns exactly the pixels with no zero channel, in row-major order |
| ImgHelp.FilterBright | leafcolors/img_help.py:14 | the row filter never lengthens the row |
| ImgHelp.FilterBrightMembers | leafcolors/img_help.py:14 | the row filter keeps exactly the pixels with no zero channel |
| ImgHelp.FilterBrightIdempotent | leafcolors/img_help.py:14 | filtering a row twice is filtering it once |
| ImgHelp.DropEmpty | leafcolors/img_help.py:16 | the rows left hold no empty row and are no more than the image's |
| ImgHelp.Flatten | leafcolors/img_help.py:17 | a definition without a contract: the rows concatenated in order |
| ImgHelp.FlattenMembers | leafcolors/img_help.py:17 | a pixel of the flattened image is exactly a pixel of one of its rows |
| ImgHelp.BrightPixels | leafcolors/img_help.py:11-18 | a definition without a contract: the bright pixels of the flattened image; `RemoveDark` is proved to compute it |
| ImgHelp.FlattenFilteredRows | leafcolors/img_help.py:13-17 | filtering each row and flattening is filtering the flattened image |
| ImgHelp.FlattenDropEmpty | leafcolors/img_help.py:16-17 | dropping emptied rows does not change the flattened result |
| ImgHelp.BrightPixelsBound | leafcolors/img_help.py:11-18 | the result has no more pixels than the image, and holds exactly its bright pixels |
| ImgHelp.RemoveDarkIdempotent | leafcolors/img_help.py:11-18 | the result, reshaped to one row of pixels, has no dark pixel left to remove; this is not Python's `remove_dark` on the raw (n, 3) result (see Left out) |
| ImgHelp.KMeansInput | leafcolors/img_help.py:32-36 | k-means gets the bright pixels when at least one remains (`size > 2`), else the whole image |
| ImgHelp.DomColor | leafcolors/img_help.py:22-48 | the dominant colour is chosen from the bright pixels when there are any, else from the whole image |
| ImgHelp.ClampLeaf | leafcolors/img_help.py:96-103 | a negative `x` or `y` becomes 0; width and height are unchanged |
| ImgHelp.CropImg | leafcolors/img_help.py:89-108 | a definition without a contract: `img[y:y+height, x:x+width]` after the clamp, with Python's slice clamping; the `CropImg*` lemmas give its shape and pixels |
| PyStr.Slice | leafcolors/img_help.py:105 | Python's slice: exactly `s[lo..hi]` for in-range bounds, clamped to the sequence otherwise, empty when `hi <= lo` or `lo` is past the end |
| ImgHelp.SliceRows | leafcolors/img_help.py:105 | a definition without a contract: the column slice `[:, x:x + width]`, each row sliced with Python's clamping; `CropImgRow` states it |
| ImgHelp.CropImgRows | leafcolors/img_help.py:105 | the crop has at most `height` rows and no more than the image |
| ImgHelp.CropImgRow | leafcolors/img_help.py:105 | row `i` of the crop is image row `y+i` sliced `[x:x+width]` with Python's clamping |
| ImgHelp.CropImgPixel | leafcolors/img_help.py:89-108 | each crop row has at most `width` pixels, and pixel `(i, j)` is image pixel `(y+i, x+j)`, `x` and `y` clamped |
| ImgHelp.CropImgInside | leafcolors/img_help.py:105 | a box inside the image crops to exactly `height` rows of `width` pixels |
| ImgHelp.MaskRow | leafcolors/img_help.py:65-66 | one row of the mask step: same length, each pixel black where the mask is 0 or 2 and the row's own elsewhere |
| ImgHelp.ApplyMask | leafcolors/img_help.py:65-66 | the mask step blacks out the pixels whose mask value is 0 or 2 and keeps the others, same shape |
| ImgHelp.ApplyMaskIdempotent | leafcolors/img_help.py:65-66 | masking twice with the same mask is masking once |
| ImgHelp.CountNonZero | leafcolors/img_help.py:69 | `countNonZero` of the grey image is 0 exactly when every pixel is grey 0 |
| ImgHelp.CountRow | leafcolors/img_help.py:69 | `countNonZero` over one row: 0 exactly when every pixel of the row is grey 0 |
| ImgHelp.GrabCut | leafcolors/img_help.py:65-73 | the original image is returned when the masked image has no non-zero grey pixel, else the masked image |
| ImgHelp.GrabCutAllBackground | leafcolors/img_help.py:69-72 | an all-background mask gives back the original image |
| ImgHelp.GrabCutPixels | leafcolors/img_help.py:65-73 | the result has the image's shape, each pixel black or the image's own |
| INat.FloorDiv | inatobvs.py:35 | Python's `//`: the quotient rounded towards minus infinity; `ZeroDivisionError` for 0 |
| INat.CeilDiv | inatobvs.py:31-35 | `-(-a // b)` lies within one divisor of `a/b` from above; `ZeroDivisionError` for 0 |
| INat.CeilDivLeast | inatobvs.py:31-35 | for `b > 0`, `_ceildiv(a, b)` is the least `q` with `q*b >= a` |
| PyStr.Find | inatobvs.py:25 | `str.find`: the lowest index where the pattern occurs, or -1 when it occurs nowhere |
| INat.Head | inatobvs.py:25-27 | `link[:pageIndex]` is a prefix of the link: up to the first `&page=`, or all but the last character when `&page=` is absent (`find` gives -1) |
| PyStr.SplitOnce | inatobvs.py:26 | `split('&', 1)`: one piece exactly when there is no `&`; otherwise the text before the first `&` and everything after it |
| INat.Tail | inatobvs.py:25-27 | `splitLink[1]` exists exactly when an `&` follows `pageIndex + 1`, and is then a proper suffix of the link |
| PyStr.IntToString | inatobvs.py:27 | `str(p)` holds only digits and `-` |
| PyStr.ParseIntOfIntToString | inatobvs.py:27 | `int(str(n)) == n` for every integer |
| INat.ChangePage | inatobvs.py:15-28 | raises for `p < 1`; succeeds exactly when an `&` follows the page value, else `IndexError` |
| INat.ChangePageRewrites | inatobvs.py:25-27 | keeps the text before the first `&page=`, writes `&page=<p>&`, keeps everything after the next `&` |
| INat.ChangePageNeedsAmp | inatobvs.py:26-27 | with no `&` after the page value, `splitLink[1]` raises `IndexError` |
| INat.HeadFree | inatobvs.py:25-27 | the kept head holds no `&page=` |
| INat.ChangePageOkAnyPage | inatobvs.py:22-27 | whether the rewrite succeeds does not depend on the page number |
| INat.ChangePageTwice | inatobvs.py:25-27 | rewriting with `p` then `q` equals rewriting with `q` |
| INat.ChangePageIdempotent | inatobvs.py:25-27 | rewriting twice with the same page is rewriting once |
| INat.PerPageText | inatobvs.py:41-44 | the text `_per_page` parses holds no `&` and is no longer than the URL |
| INat.PerPage | inatobvs.py:37-45 | `_per_page` can fail only with `int`'s `ValueError` (`PerPageParses` gives its value) |
| INat.PerPageParses | inatobvs.py:41-45 | digits between `&per_page=` and the next `&` parse to their value |
| INat.PerPageLast | inatobvs.py:42-45 | with `per_page` last, the slice is empty and `int('')` raises `ValueError` |
| INat.CheckUrl | inatobvs.py:7-10 | raises exactly when `per_page` or `&page=` starts at index 0 (`find` gives 0, which is falsy), the `per_page` message first; otherwise the URL is kept |
| INat.CheckUrlMissingParams | inatobvs.py:7-10 | a URL with neither parameter passes both checks, since `find` gives -1, which is truthy |
| INat.CheckUrlPageFirst | inatobvs.py:9-10 | a URL starting with `&page=` raises the page-parameter error |
| INat.Whitelisted | inatobvs.py:68-72 | the record filter keeps exactly the whitelisted keys, values unchanged |
| INat.WhitelistedIdempotent | inatobvs.py:68-72 | filtering twice is filtering once |
| INat.FilterAll | inatobvs.py:67-72 | each record of a page is replaced by its filtered form, in order |
| INat.PageRecords | inatobvs.py:67-72 | the in-place loop over `response['results']` produces `FilterAll` of the page |
| INat.PageCount | inatobvs.py:55-56 | the page count fails only with `_per_page`'s `ValueError` or `_ceildiv`'s `ZeroDivisionError` |
| INat.GetData | inatobvs.py:47-74 | `get_data` returns `GetDataSpec`; it requests `url`, then `_change_page(url, i)` for each `i` in `1..pages` |
| INat.GetDataSpec | inatobvs.py:47-74 | a definition without a contract: the page count, then the records of pages `1..pages`, none when `pages <= 0` |
| INat.Links | inatobvs.py:63 | a definition without a contract: page `i` is requested at `_change_page(self.url, i)`; `GetData` states the requested links |
| INat.Collected | inatobvs.py:61-73 | a definition without a contract: the records of pages `1..n`, stopping at the first error; `CollectedStep`, `CollectedErr` and `CollectedWhitelisted` give its properties |
| INat.CollectedStep | inatobvs.py:61-73 | one more page: its filtered records follow those of the earlier pages, or the first error is kept |
| INat.FetchPages | inatobvs.py:60-74 | the paging loop returns the pages' filtered records in page order, and fails with the first failing link's error |
| INat.CollectedErr | inatobvs.py:61-63 | once a page's link fails, the whole loop fails with that error |
| INat.CollectedWhitelisted | inatobvs.py:60-74 | every returned record has only whitelisted keys, each filtered from a record of some requested page |
| INat.CollectedOk | inatobvs.py:61-63 | when page 1's link can be built, the paging loop never fails, whatever the number of pages |
| INat.CollectedFails | inatobvs.py:61-63 | when page 1's link cannot be built, any non-empty paging loop fails with `IndexError` |
| PyStr.Replace | inatobvs.py:84 | `str.replace`: text without the pattern comes back unchanged, and a replacement as long as the pattern keeps the length |
| PyStr.ReplaceBySelf | inatobvs.py:84 | replacing a pattern by itself changes nothing |
| INat.PhotoUrl | inatobvs.py:84 | a definition without a contract: `url.replace('square', size)`; `PhotoUrlOfSquare` and `PhotoUrlSquare` give its effect |
| INat.PhotoUrlOfSquare | inatobvs.py:84 | a photo URL naming `square` once gets `size` in its place, the rest unchanged |
| INat.PhotoUrlSquare | inatobvs.py:84 | asking for `square` leaves the URL as it is |
| INat.Str | inatobvs.py:85 | `str(id)`: the text itself for text, digits that `int` parses back for a number, `TypeError` only for a list or object (see Left out) |
| INat.PictureRetrieval | inatobvs.py:84-85 | `TypeError` unless the picture is an object, `KeyError` without `url`, `AttributeError` for a `url` that is not text, `KeyError` without `id`; otherwise it fetches `url.replace('square', size)` into `folder + str(id) + '.jpg'` |
| INat.Photos | inatobvs.py:83 | what `for picture in obs['photos']` walks: `KeyError` without the key, a list's items, a text's characters, nothing for an empty text or object, `TypeError` otherwise |
| INat.NoPhotos | inatobvs.py:82-85 | an observation whose photos are an empty list, text or object adds no retrieval and no error |
| INat.TextPhotosFail | inatobvs.py:83-85 | photos given as non-empty text fail with `TypeError` at the first character's `['url']` |
| INat.PhotoRetrievalsEach | inatobvs.py:83-85 | on success, one retrieval per picture, each that picture's own, in order |
| INat.PhotoRetrievals | inatobvs.py:83-85 | a definition without a contract: the retrievals of one observation's pictures in order, stopping at the first error |
| INat.Retrievals | inatobvs.py:82-85 | a definition without a contract: every observation's retrievals in order, stopping at the first error |
| INat.RetrievalsErr | inatobvs.py:82-85 | an observation that fails makes the whole download fail with that error |
| INat.PhotoRetrievalsErr | inatobvs.py:83-85 | a picture that fails makes its observation fail with that error |
| INat.PhotoPerformed | inatobvs.py:83-85 | a definition without a contract: the retrievals of one observation's pictures before the first that fails |
| INat.Performed | inatobvs.py:82-85 | a definition without a contract: the retrievals `download` performs before its first error; `PerformedOk` and `PerformedAtFailure` give its meaning |
| INat.PhotoPerformedOk | inatobvs.py:83-85 | without an error, every picture's retrieval is performed |
| INat.PerformedOk | inatobvs.py:82-85 | without an error, `download` performs exactly `Retrievals` |
| INat.PhotoPerformedStops | inatobvs.py:83-85 | after the first failing picture, nothing more of that observation is performed |
| INat.PerformedStops | inatobvs.py:82-85 | after the first failing observation, nothing more is performed |
| INat.PerformedAtFailure | inatobvs.py:82-85 | when picture `m` of observation `k` is the first to fail, `download` raises its error, after performing the retrievals of the earlier observations and of the earlier pictures of observation `k` |
| INat.Download | inatobvs.py:76-85 | the nested loop performs `Retrievals`, each picture of each observation in order; on an error it fails with `Retrievals`' error, having performed exactly `Performed` |
| INat.New | inatobvs.py:6-12 | the constructor fails exactly when a check or `get_data` fails, the check first, with the failing step's own error; otherwise it holds `url` and `get_data()`'s records |

## Left out

- The Mercator projection and the `str` of `cx`/`cy` (graphics/gen_frames.py:69-70, 85-88). They are floating-point `log`/`tan`. A circle piece carries the location and colour instead.
- The floating-point values of opacity. The model keeps exact integer tenths, so a frame's circle carries 7 where Python writes `0.7000000000000001`, and 0 where it writes `1.3877787807814457e-16`. The one effect of the drift on behaviour is that 0.10000000000000014 still passes `> .1`. The model does capture it: `Render.Threshold` is 0 tenths. So an observation that is never skipped is drawn eleven times and removed in the twelfth frame, one skipped along the way a frame later, and every skip falls in the same frame as in Python.
- The style string built from the colour: the circle piece carries the colour and opacity it is computed from.
- File I/O:
  - reading `starter.svg` and `ender.svg` (their contents are the opaque `Starter` and `Ender` pieces);
  - opening and writing the frame files (`MakeSvg` returns the file's pieces instead);
  - `json.load` and `json.dump`.
- All `print` calls.
- The network: `urlopen` and `urlretrieve`.
  - `fetch` is a parameter mapping a URL to its decoded page.
  - `download` returns the retrievals instead of performing them, and those performed before an error as well.
- `json.loads` and `int(response['total_results'])`: a page is already decoded, with an integer total.
- Calendar arithmetic. The scheduler works on day ordinals, so the ISO-text-to-ordinal conversion inside `date_diff` and `makeSVG` is not modelled.
  - `make_date` is modelled on text, as far as `datetime.date`.
  - `make_frames` compares `observed_on` values as days, not as strings. Two spellings of one day would differ in Python.
- `Schedule.MakeFrames`: the `obv['color'].append(1.1)` on the caller's dictionaries is modelled as the entry opacity of each active-list element, not as a change to the input records.
- PyStr.ParseInt: `int(...)` of text with surrounding whitespace, `_` separators or non-ASCII decimal digits (such as Arabic-Indic ones) is not modelled. Python's limit on the number of digits (`ValueError` beyond 4300 in recent versions) is not modelled either. `ParseInt` accepts only an optional sign and ASCII decimal digits, of any length.
- INat.Str: `str(...)` of a list or object photo id is Python's printed form; the model gives `TypeError` for it, because ids are numbers.
- Render.RemoveFirst: `list.remove` compares whole dictionaries, keys the model does not carry included (`uri`, `photos`, `user`, the `observed_on` text). `Iterate` is the loop's exact model when entries with equal modelled fields are equal dictionaries, as they are when ids are distinct; two records with one id that differ only in other keys could be removed in a different order.
- Render.IterateIsPass, Render.FrameContents, Render.DrawnOnce, Render.RemovedOnce, Render.SkippedAfterRemoval and Render.FirstRenderAtTen are stated for lists with distinct ids only. With a repeated record, `list.remove` deletes the earlier copy, which may be one the walk already passed, so the in-order and "nothing with its id is left" statements fail there, in Python as in `Render.Iterate`. `Render.Iterate`, `Render.IterateKeeps` and `Render.SkipExample`'s mechanism need no such premise.
- ImgHelp.RemoveDarkIdempotent: states idempotence for the result reshaped to one row of pixels (`reshape(1, -1, 3)`). Python's `remove_dark` on its raw (n, 3) result reads each pixel as a row of channels and returns a flat array of 3n numbers.
- OpenCV and numpy internals: `cv2.kmeans`, `cv2.grabCut`, `cv2.cvtColor`'s grey weighting, `np.unique`/`argmax`.
  - The mask, the grey value of a pixel and the dominant-colour choice are parameters.
  - `np.float32` conversion is not modelled.
- `hconcat_resize` and `get_color` in leafcolors/img_help.py: float resizing and plain composition of the modelled helpers.
- graphics/grabcutgraphic.py is not part of this model.
- Dictionary key order of the filtered records: records are maps.
