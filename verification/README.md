# Plant-disease detection: decision pipeline and upload front end

A Dafny model of the two pieces of logic in the plant-disease detection web
application that are not I/O plumbing.

**The server's decision pipeline (`app.py`).** An uploaded leaf photograph is
enhanced and segmented by k-means into five colour clusters. Those steps are
OpenCV code and are taken here as given inputs. After that everything is
integer logic:

- `get_segmented_features_set` picks one HSV colour per cluster id 0..4. It
  takes the first pixel, in row-major order, of the label grid that carries
  that id.
- `get_features` collects these per image and flattens them.
- `classify` labels every colour with the pickled support-vector classifier.
- `get_significant_feature` picks the first colour of maximal saturation and
  gates it on two thresholds.
- `prediction` runs a three-stage cascade: Explored, then Mid-Explored, then
  Begin, then No Disease.
- `get_classified_region` masks the image down to the chosen colour.
- `submit` and `result` derive the name of the result page and of the figure
  that page shows.

**The browser front end (`static/main.js`).**

- The URL dialog (`EnterUrlDialogComponent`) is a small state machine. It
  starts with an empty field, Save closes it only on a non-empty, non-null
  url, and Cancel closes it with no result.
- The upload panel (`PlantDiseaseUploadComponent`) tracks the selected file
  and its preview. It shows the upload button only when a file is set, sends
  the POST to `submit`, and navigates when the answer arrives.

Modules, one per component:

- `Wrappers`: Option.
- `Features`: grids, reshape, first-occurrence cluster features and
  get_features.
- `Classification`: classify, get_significant_feature, the cascade and
  prediction.
- `Region`: get_classified_region.
- `Routes`: the stem, the result name, the saved path, the result route, and
  which images submit saves.
- `UrlDialog`: the URL dialog.
- `UploadPanel`: the upload panel.

Images are row-major grids (`seq<seq<Triple>>`). Row-major order is the
lexicographic order on cells (`Features.Before`). The support-vector
classifier is a deterministic function parameter `Triple -> int`. The three
training tables are parameters too, and `classify` ignores them.

Properties worth reading first:

- `Classification.LaterStagesUnreachable`: `classify` never reads its
  training table, so all three cascade stages see the same predictions. A
  stage-1 miss is therefore a miss in stages 2 and 3, and the labels
  Mid-Explored and Begin can never be produced.
  `Classification.MidExploredNeedsDistinctPredictions` shows that the
  cascade itself reaches Mid-Explored when the stages' predictions differ.
- `UploadPanel.ZeroByteFileIsStillSelected`: in `onFileSelect` the
  `size <= 0` guard runs after the file has been stored and its preview read
  started. A zero-byte file is therefore selected like any other file, and
  the upload button appears for it.
- `Routes.SavedOncePerDiseaseOrHealthy`: `submit` writes a figure for every
  verdict except No Disease. For a No Disease upload it still answers with
  the result name, and that name points at a figure this request never wrote.
- `UploadPanel.StalePreviewAfterOutOfOrderReads`: two quick selections whose
  reads finish out of order leave the preview showing the first file while
  the second file is the one stored and uploaded.
- `Routes.Stem`: `filename[:len(filename)-4]` removes a four-character
  extension. For a 3-character name it keeps 2 characters. Shorter names
  give an empty stem.

## Model

| member | source | states |
|---|---|---|
| Features.Reshape | app.py:326 | reshaping the flat k-means label vector to height × width succeeds exactly when its length is height·width (numpy raises otherwise); the rows are rectangular and read back in row-major order give the vector |
| Features.ReshapeConcat | app.py:326 | reshape inverts row-major flattening of any rectangular grid |
| Features.FirstPos | app.py:331-338 | the cell found for a cluster id is the unique first cell in row-major order carrying that id; none is found exactly when the id does not occur |
| Features.ClusterFeaturesSpec | app.py:327-338 | an image's feature set has one colour per cluster id 0..4 present in the grid (every id listed lies in 0..4), at most five, in ascending id order; each is the colour at that id's first pixel; absent ids contribute nothing |
| Features.GetSegmentedFeaturesSet | app.py:325-341 | the triple loop with its `count` flag computes exactly the first-occurrence feature set; a label vector that does not fit the image is the reshape error |
| Features.Flatten | app.py:354-357 | the flattened list is the in-order concatenation of the per-image feature sets |
| Features.GetFeatures | app.py:347-361 | one feature set per input image, in order, each that image's first-occurrence features; the flat list is their concatenation with at most five rows per image; a missing or ill-sized label vector raises |
| Classification.Classify | app.py:366-387 | one prediction per test row, in row order, each the loaded model's prediction for that row |
| Classification.ClassifyIgnoresTable | app.py:366-387 | classify's predictions do not depend on the training table passed to it |
| Classification.ArgMaxSaturation | app.py:394-398 | the index chosen is the first index whose second component (saturation) is maximal |
| Classification.GetSignificantFeature | app.py:393-402 | for the first row of maximal saturation: it is returned exactly when its saturation is above 150 and its hue above 70, otherwise the result is empty; a returned row is a member of the input |
| Classification.PositiveIndices | app.py:429-432 | the indices of the rows predicted 1: strictly increasing, each predicted 1, and every row predicted 1 among them |
| Classification.Positives | app.py:429-432 | stage 1 keeps exactly the rows predicted 1, in their original order (the j-th kept row is the row at the j-th positive index); it is empty exactly when no row is predicted 1 |
| Classification.FirstPositive | app.py:449-459 | stage 2 takes the first row predicted 1, or none when no row is |
| Classification.FirstBegin | app.py:466-472 | stage 3 takes the first row predicted 1 with hue above 70, or none when no row is |
| Classification.Cascade | app.py:429-476 | a feature is returned exactly with a disease label (so an empty feature goes with Healthy or No Disease), and a returned feature is a row of the image |
| Classification.CascadeStageOrder | app.py:429-476 | the stages run in fixed order: a stage-1 positive row makes the outcome Explored or Healthy; Explored needs a stage-1 positive and a significant feature; Mid-Explored needs no stage-1 positive and a stage-2 positive row with value above 65; Begin needs no positive in stages 1 and 2 and a begin row; No Disease exactly when no stage finds a row |
| Classification.CascadeDecidingRow | app.py:434-472 | which row decides: with a stage-1 positive, Explored with get_significant_feature of the positive rows in order, or Healthy when that is empty; otherwise stage 2's first positive row decides and the search stops there (Mid-Explored above value 65, Healthy otherwise); otherwise stage 3's first begin row gives Begin |
| Classification.PredictImage | app.py:412-476 | one image's verdict: an empty feature goes with Healthy or No Disease; a returned feature is a row of the image and is labelled Explored |
| Classification.FirstMaxPositiveExists | app.py:429-432 | when the model predicts some row 1, there is a row predicted 1 whose saturation no row predicted 1 exceeds and every earlier row predicted 1 falls short of |
| Classification.OneModelVerdict | app.py:425-476 | with the one loaded model: No Disease exactly when the model predicts no row 1; otherwise a first positive row of maximal saturation exists, and the verdict is Explored with that row when it is significant and Healthy when it is not |
| Classification.LaterStagesUnreachable | app.py:444-472 | because every stage predicts with the same model, no image is ever labelled Mid-Explored or Begin |
| Classification.MidExploredNeedsDistinctPredictions | app.py:444-459 | with stage predictions that differ, the cascade does reach Mid-Explored, so its absence comes from classify alone |
| Classification.Prediction | app.py:407-478 | one feature and one label per input image, each pair that image's verdict; an empty feature is paired with Healthy or No Disease; a non-empty feature is a member of that image's features and is labelled Explored; Mid-Explored and Begin never occur |
| Region.ToUint8 | app.py:497-498 | the uint8 conversion yields a byte congruent to the channel modulo 256, unchanged for byte values |
| Region.GetClassifiedRegion | app.py:483-508 | both masks keep the segmented image's height and width; a pixel is copied (from seg_img, respectively enh_img) exactly where all three segmented channels equal the feature, and is black elsewhere |
| Region.SegMaskIdempotent | app.py:486-497 | masking the segmented mask again with the same byte-valued feature leaves it unchanged |
| Routes.SliceTo | app.py:594 | Python's `s[:n]` is a prefix of s whose length follows Python's negative-index and clamping rules |
| Routes.Stem | app.py:594 | the stem drops a four-character extension; a 3-character name keeps its first 2 characters, shorter names give an empty stem |
| Routes.MatchResultRoute | app.py:535-536 | the result route accepts exactly the URLs `/result/` followed by one non-empty segment without '/': every such URL is matched to its segment, and a match is always of that form |
| Routes.ResultRouteRoundTrip | app.py:535-536 | for a sanitised file name, the URL submit returns (line 604) is matched by the result route with the same name |
| Routes.ResultShowsSavedImage | app.py:538-542 | the image the result page shows is the path the figure was saved to at line 594, seen from the server's working directory |
| Routes.SavedPaths | app.py:576-598 | at most one figure per image, each saved at the path derived from the uploaded file name |
| Routes.SavedOncePerDiseaseOrHealthy | app.py:576-598 | given prediction's pairing of features and labels, exactly one figure is written per image not labelled No Disease |
| Routes.SubmitSavesUnlessNoDisease | app.py:571-598 | for what prediction returns, the figures written are exactly those of the images not labelled No Disease |
| UploadPanel.NewPanel | static/main.js:240-243 | after the constructor no file is set (so the upload button is hidden), nothing is previewed, no read has started, nothing has been sent and no navigation has happened |
| UrlDialog.NewDialog | static/main.js:39-43 | a new dialog has an empty url and has not closed |
| UrlDialog.EditUrl | static/main.js:63 | typing replaces the url and closes nothing |
| UrlDialog.OnSave | static/main.js:44-49 | with url '' or null Save changes nothing; otherwise it closes once with exactly `{success: true, url}` and keeps the url |
| UrlDialog.OnCancel | static/main.js:51-53 | Cancel closes once with no result, whatever the url holds |
| UrlDialog.RunKeepsClosesWellFormed | static/main.js:44-53 | along any event sequence every close with a result has success set and a non-empty url; closes are only appended, one per Cancel and one per Save with an accepted url |
| UrlDialog.DialogResultIsNonEmptyUrl | static/main.js:44-49 | from a fresh dialog, a result that carries a url carries a non-empty one with success set |
| UrlDialog.DialogScenarios | static/main.js:42-53 | Save after typing "http://example.com" closes with exactly that result; Save on the fresh dialog closes nothing; Cancel closes without a result |
| UploadPanel.OnFileSelect | static/main.js:244-259 | `files[0]` is stored unconditionally and its read is started; an empty list stores undefined and starts nothing; preview, requests and navigation are untouched |
| UploadPanel.ZeroByteFileIsStillSelected | static/main.js:247-256 | a zero-byte file is stored and read just like a non-empty file, and the upload button then shows |
| UploadPanel.OnReaderLoad | static/main.js:250-252 | a finished read sets the preview to its own file and leaves the pending list, the other reads staying in their order; nothing else changes |
| UploadPanel.PreviewFollowsSelection | static/main.js:248-253 | selecting a file and letting its read finish previews that file |
| UploadPanel.StalePreviewAfterOutOfOrderReads | static/main.js:249-253 | reads that finish out of order can leave the preview on an older file than the stored one |
| UploadPanel.UploadImage | static/main.js:271-289 | exactly one asynchronous POST to "submit" is added, with the single form field "image" carrying the stored file when the button is visible; nothing else changes |
| UploadPanel.Split | static/main.js:280 | JavaScript's split on a non-empty separator yields at least one piece; SplitJoin and SplitIsLeftmost pin the pieces down |
| UploadPanel.SplitJoin | static/main.js:280 | joining the split pieces with "::" gives the response back, and no piece contains the separator |
| UploadPanel.SplitIsLeftmost | static/main.js:280 | the cuts are at the left-most non-overlapping occurrences: no occurrence of the separator starts inside any piece but the last; with SplitJoin this determines the pieces |
| UploadPanel.SplitWithoutSeparator | static/main.js:280 | a text without the separator splits into itself alone |
| UploadPanel.OnReadyStateChange | static/main.js:278-286 | only readyState 4 with status 200 navigates, to the response cut at the left-most "::" occurrences (pieces that join back to the response text, none containing "::"); every other state change leaves the panel unchanged |
| UploadPanel.NavigationToPlainResponse | static/main.js:279-284 | a successful response without "::" navigates to the one-element list holding the whole response |

Members without a contract of their own, described by the rows above:

- `Classification.LabelText` gives the five label strings.
- `Routes.ResultName`, `Routes.SavedImagePath`, `Routes.ResultUrl`,
  `Routes.JoinPath` and `Routes.ResultImageSource` are the name and path
  expressions at app.py:540, 594 and 604.
- `UploadPanel.ShowsUploadButton` is the `ngIf` on `file` at
  static/main.js:314 and 322.
- `UploadPanel.ImageEntry` is the FormData value at static/main.js:275.
- `UploadPanel.Join` is the partner of `UploadPanel.Split`.

## Left out

- OpenCV enhancement, colour conversion and k-means segmentation
  (app.py:26-97). They are foreign, floating-point and randomly seeded. The
  segmented image, the enhanced image and the flat label vector are inputs.
- The pickled support-vector classifier and its loading (app.py:381-383).
  It is an uninterpreted deterministic function parameter.
- The training tables `FEATURE_SET_*` and their DataFrames (app.py:103-319).
  They are arbitrary parameters, because classify never reads them.
- Classification.Classify: scikit-learn's `predict` raises on zero rows. The
  model instead returns an empty prediction list, so an image with no
  features is labelled No Disease.
- Classification.Prediction: the `t_feature_df` argument (app.py:407) is
  not modelled. prediction never reads it.
- Classification.GetSignificantFeature: it requires a non-empty list. The
  source raises on an empty list (the max of an empty array), and its only
  caller passes a non-empty list.
- Routes.SavedPaths: the source checks that 'Healthy Image' occurs in the
  label text. The model tests for the Healthy label instead, since that is
  the only one of the five label texts that contains those words.
- Routes.ResultRouteRoundTrip: the file name is assumed to be
  `secure_filename`'s output, which has no '/'. `secure_filename` itself is
  not modelled.
- Routes.JoinPath: it follows `os.path.join` on POSIX, with '/' as the
  separator. On Windows, `os.path.join` separates with a backslash, so the saved
  path and the page's image path would be spelled differently; the Windows
  path rules are not modelled.
- `url_for` percent-encoding is not modelled. A sanitised name needs none.
- Flask request handling, file saving, `render_template`, the `index` route
  and the content of the matplotlib figures (app.py:513-533 and the I/O
  calls in 544-604). These are I/O or foreign library calls; only the paths
  and the number of figures written are modelled.
- Console printing throughout.
- Region.GetClassifiedRegion: the `f_label` argument is not modelled. It
  only titles a figure that is never shown.
- A zero-height image has width 0 in the model. numpy can keep a width with
  no rows, but such an image has no pixels, so nothing depends on it.
- FileReader's data-URL encoding. The preview is represented by the file
  whose data-URL it shows.
- XMLHttpRequest transport and multipart encoding. A request is recorded
  with its verb, target, async flag and form entries.
- The assignment of the split array to `window.location.href`, with its
  array-to-string coercion. The navigation records the array itself.
- UploadPanel.Split: its own contract gives only the number of pieces. The
  splitting rule is proved in SplitJoin and SplitIsLeftmost instead. That
  keeps Split's postcondition, which every use of Split brings along, small
  and the proofs that use it cheap.
- UploadPanel.OnReadyStateChange: it is not tied to a request sent
  earlier. The model allows a state change for any panel; the browser only
  delivers one for the request that uploadImage sent.
- The `async` wrapper's rejected promise when `readAsDataURL(undefined)`
  throws. The model keeps the state reached before the throw.
- `enterUrlFunc` with its MatDialog open and the ignored `afterOpened`
  subscription, the `ngOnInit` no-ops, what MatDialogRef does with repeated
  `close` calls (the model records every call), the Angular template
  instructions, styles, source maps, `AppComponent`, module registration,
  the environment flag and the webpack runtime. These are framework or
  browser plumbing.
