# whalebin browser behaviours, modelled in Dafny

This project models the three behaviours of `static/main.js` in whalebin's web front end:

- **Tab key in a textarea** (`TabKey.dfy`). Pressing Tab replaces the selected text with one tab character. The caret then collapses just after that tab. Any other key changes nothing. `InsertTab` is the edit as a value. `Textarea.KeyDown` is the handler acting on a textarea object.
- **Favorite widget** (`FavoriteVote.dfy`, with `Decimal.dfy` for the count text). The widget shows a star glyph and a count.
  - The `favorite-star-on` class of the host element is the widget's flag.
  - A click with the flag off sets the flag and sends a star request. A click with the flag on clears it and sends an unstar request.
  - Every answer goes through `update_state`. That callback rewrites the glyph and the count text. It never touches the flag.
  - `View` is the widget's observable state as a value. `Clicked` and `Rendered` are its transitions, and `Run` replays a sequence of clicks and answers. The class `FavoriteWidget` has the same fields, and its methods are proved to perform exactly those transitions.
- **Iframe sizing** (`CanvasSize.dfy`). The viewer iframe becomes as wide as its widest canvas plus 100, and as tall as its tallest canvas plus 100. With no canvases it is left unchanged and the sizing is retried.

Asynchrony is modelled as a log. Sending a request appends it to `issued`. Each answer arrives later as a separate call (`UpdateState`, or a `Respond` event). Answers can come in any order and carry any payload, but each one needs an outstanding request. The ghost counter `delivered` tracks how many requests have been answered.

The code of `static/main.js` has three consequences worth stating, and the model reproduces each of them:

- `update_state` (static/main.js:34-46) never changes the `favorite-star-on` class. So after the fetch the flag keeps whatever the host element had, even when the server reports `starred: true` (`ResponsesKeepFlag`, `StarredViewerClickStarsAgain`). A viewer who already starred the item sees a filled star, but their first click sends another star request.
- The click handler (static/main.js:58-64) sets or clears the class before any answer arrives. So two quick clicks on an unstarred widget send a star request and then an unstar request (`RapidClicks`, `RunIssues`).
- Only the glyph and count text follow the answers. The flag follows the clicks alone, so it can disagree with the last answer's `starred` (`RunFlag`).

## Model

| member | source | states |
|---|---|---|
| TabKey.InsertTab | static/main.js:11-17 | For a selection start..end within the text, the new text keeps everything before start, has a tab at start, and continues with everything after end. Its length is the old length minus the selection plus one. The caret lands at start + 1, just after the tab and within the new text. |
| TabKey.InsertTabDetermined | static/main.js:12-14 | Those properties determine the new text completely: any text with the same prefix, a tab at start and the same suffix is the one the handler writes. |
| TabKey.InsertTabReplacesSelection | static/main.js:12-14 | Only the selection is lost: putting the selected text back in place of the tab gives the original text. |
| TabKey.TabTwice | static/main.js:12-17 | Two Tab presses at a collapsed caret leave two tabs there, with the caret after both. |
| TabKey.Textarea.KeyDown | static/main.js:3-22 | For key code 9, the value becomes InsertTab's text, both selection ends become start + 1, and the event is consumed. For any other key, the value and the selection are unchanged and the event is not consumed. The selection stays within the value. |
| Decimal.DigitsText | static/main.js:45 | A count's digits are a non-empty string of decimal digits with no leading zero, except for 0 itself. |
| Decimal.DecimalText | static/main.js:45 | The rendered count text is non-empty and starts with a minus sign exactly when the count is negative. |
| Decimal.DigitsRoundTrip | static/main.js:45 | Reading the digits of n back gives n. |
| Decimal.DecimalRoundTrip | static/main.js:45 | Parsing the rendered count text gives back the count, so for counts below 2^53 in magnitude the count element shows exactly state.count. |
| Decimal.DecimalTextInjective | static/main.js:45 | Two different counts are never rendered as the same text. |
| FavoriteVote.Glyph | static/main.js:35-43 | The glyph is "★" exactly when starred is true, and "☆" exactly when it is false. |
| FavoriteVote.RunFlag | static/main.js:34-66 | After any sequence of clicks and answers, the flag is the initial flag negated once per click. Answers never affect it. |
| FavoriteVote.RunRendersLastResponse | static/main.js:34-46 | After any sequence of clicks and answers, the glyph and count text are those of the last answer, whatever came before and whatever the flag is. With no answer they are unchanged. Last answer wins. |
| FavoriteVote.RunIssues | static/main.js:48-66 | Requests already sent stay in the log. Each click adds exactly one request and each answer is counted as delivered once. The clicks' requests alternate, starting with a star request exactly when the flag was off. |
| FavoriteVote.ResponsesKeepFlag | static/main.js:34-66 | Answers alone never change the flag. This includes the answer to the initial fetch. |
| FavoriteVote.StarredViewerClickStarsAgain | static/main.js:39-66 | Suppose the fetch answers starred: true. The widget shows "★" but the flag stays off, so the next click sends a star request and not an unstar request. |
| FavoriteVote.StarThenUnstar | static/main.js:34-66 | Fetch {false, 3} shows "☆" and "3" with the flag off. After a click and the answer {true, 4}, it shows "★" and "4" with the flag on. After another click and the answer {false, 3}, it shows "☆" and "3" with the flag off. The requests sent are fetch, star and unstar. |
| FavoriteVote.RapidClicks | static/main.js:48-64 | Two clicks before any answer send a star request and then an unstar request. Whichever answer is delivered last decides the glyph and count. The flag ends off. |
| FavoriteVote.FavoriteWidget.Init | static/main.js:25-32 | Mounting leaves the glyph and count texts empty and the flag as the host element had it. The fetch is the only request sent. |
| FavoriteVote.FavoriteWidget.UpdateState | static/main.js:34-46 | An answer sets the glyph to Glyph(starred) and the count text to the count's decimal text. The flag and the request log are unchanged. |
| FavoriteVote.FavoriteWidget.Upvote | static/main.js:48-51 | Sets the flag and appends one star request. The texts are unchanged. |
| FavoriteVote.FavoriteWidget.Downvote | static/main.js:53-56 | Clears the flag and appends one unstar request. The texts are unchanged. |
| FavoriteVote.FavoriteWidget.Click | static/main.js:58-64 | Negates the flag. Appends exactly one request: star if the flag was off, unstar if it was on. The glyph and count text are unchanged. |
| CanvasSize.MaxDimensions | static/main.js:80-91 | maxWidth is at least every canvas's width and equals some canvas's width, or is 0 when there are no canvases. The same holds for maxHeight and the heights. |
| CanvasSize.Iframe.SetCanvasMaxWidth | static/main.js:70-94 | With no canvases, the iframe is unchanged and a retry is requested. Otherwise the width is the largest canvas width plus 100 and the height is the largest canvas height plus 100. |
| CanvasSize.MaxDimensionsUnique | static/main.js:80-94 | The maximum conditions pin down a single width and a single height, so the canvases determine the iframe size. |

## Left out

- `static/favorite.js` is not part of this model. It only turns the three operations into HTTP GET requests to `/ajax/star/{state,set,unset}/` plus the element's `data-url`. Here these are the `Fetch`, `Star` and `Unstar` entries of the request log.
- DOM and jQuery mechanics are not modelled:
  - the spacer span;
  - the `cursor` and `font-size` styles;
  - the `find` lookups;
  - locating the iframe and reading its canvases through `contentDocument`. The canvases are passed in as a sequence.
- Timers and logging are not modelled: the initial `setTimeout`, the one-second retry and `console.log`. The retry is reported as the `retry` result.
- Real asynchrony is not modelled. Answers are separate calls in any order, and nothing runs concurrently.
- FavoriteVote.ToggleState: `starred` is a boolean. The code tests `state.starred === true`, so any non-boolean payload value would also show "☆". The model does not represent such values.
- FavoriteVote.ToggleState: `count` is an integer of magnitude below 2^53. JSON parsing rounds larger integers, and from 10^21 upward JavaScript writes numbers in exponent form ("1e+21"); below 2^53 its text is the plain decimal that `DecimalText` produces. Non-integer counts are not modelled either.
- FavoriteVote.FavoriteWidget.UpdateState: an answer without a `count` is not modelled. There `.text(undefined)` is jQuery's getter form, so the count text would stay unchanged.
- FavoriteVote.FavoriteWidget.Init: the host element's initial `favorite-star-on` class is taken as a parameter, because main.js never sets it when mounting.
- TabKey: text is a sequence of characters and positions count characters. The browser counts UTF-16 code units and normalises line breaks in a textarea's value. Neither is modelled.
- TabKey.Textarea.KeyDown: the handler's `end` is an accidental implicit global in main.js. It has no effect on the result, so it is a local here.
