/** Result naming (app.py, submit and result): the uploaded file's stem names
    both the prediction image submit writes and the result page the client is
    sent to; result maps that name back to the image. */
module Routes {
  import opened Wrappers
  import opened Features
  import opened Classification

  /** Python's `s[:n]`: a negative bound counts from the end, and the bound is
      clamped to 0 .. |s|. */
  function SliceTo(s: string, n: int): (r: string)
    ensures |r| <= |s| && r == s[..|r|]
    ensures n >= 0 ==> |r| == if n <= |s| then n else |s|
    ensures n < 0 ==> |r| == if |s| + n >= 0 then |s| + n else 0
  {
    var stop := if n < 0 then |s| + n else n;
    if stop < 0 then [] else if stop > |s| then s else s[..stop]
  }

  /** `filename[:len(filename)-4]`: the file name without a four-character
      extension such as ".jpg". Names shorter than four characters lose
      characters from the front as well: a 3-character name keeps 2, shorter
      names keep nothing. */
  function Stem(filename: string): (r: string)
    ensures |filename| >= 4 ==> r + filename[|filename| - 4..] == filename
    ensures |filename| == 3 ==> r == filename[..2]
    ensures |filename| < 3 ==> r == []
  {
    SliceTo(filename, |filename| - 4)
  }

  /** The name submit returns to the client and result receives. */
  function ResultName(filename: string): string {
    "pred_outcome_" + Stem(filename)
  }

  /** Where submit writes the prediction figure (relative to the working
      directory of the server). */
  function SavedImagePath(filename: string): string {
    "./static/PRED_FOLDER/pred_outcome_" + Stem(filename) + ".png"
  }

  /** `url_for('result', path=name)`: the result route for name. */
  function ResultUrl(name: string): string {
    "/result/" + name
  }

  /** `os.path.join` on POSIX for two components: an absolute second
      component replaces the first; otherwise a single '/' separates them. */
  function JoinPath(a: string, b: string): string {
    if |b| > 0 && b[0] == '/' then b
    else if |a| == 0 || a[|a| - 1] == '/' then a + b
    else a + "/" + b
  }

  /** Flask's match of `/result/<path>`: the default converter takes one
      non-empty segment without '/'. */
  function MatchResultRoute(url: string): (r: Option<string>)
    ensures r.Some? ==> url == "/result/" + r.value && |r.value| > 0 && '/' !in r.value
    ensures |url| > |"/result/"| && url[..|"/result/"|] == "/result/" && '/' !in url[|"/result/"|..] ==>
      r == Some(url[|"/result/"|..])
  {
    var prefix := "/result/";
    if |url| > |prefix| && url[..|prefix|] == prefix && '/' !in url[|prefix|..] then
      assert url == prefix + url[|prefix|..];
      Some(url[|prefix|..])
    else None
  }

  /** result: the image source the result page is rendered with. */
  function ResultImageSource(path: string): string {
    "/" + JoinPath(JoinPath("static", "PRED_FOLDER"), path + ".png")
  }

  /** A result name never contains '/' when the uploaded name does not. */
  lemma ResultNameHasNoSlash(filename: string)
    requires '/' !in filename
    ensures '/' !in ResultName(filename)
  {
    var stem := Stem(filename);
    var name := ResultName(filename);
    forall k | 0 <= k < |name|
      ensures name[k] != '/'
    {
      var m := |"pred_outcome_"|;
      if k >= m {
        assert name[k] == stem[k - m] == filename[k - m];
      }
    }
  }

  /** The name submit returns routes back to result with the same name. The
      filename is secure_filename's output, which never contains '/'. */
  lemma ResultRouteRoundTrip(filename: string)
    requires '/' !in filename
    ensures MatchResultRoute(ResultUrl(ResultName(filename))) == Some(ResultName(filename))
  {
    var name := ResultName(filename);
    var url := ResultUrl(name);
    ResultNameHasNoSlash(filename);
    assert url[..|"/result/"|] == "/result/";
    assert url[|"/result/"|..] == name;
  }

  /** The page result renders for that name shows the very file submit wrote
      (the same path, seen from the server's working directory). */
  lemma ResultShowsSavedImage(filename: string)
    ensures "." + ResultImageSource(ResultName(filename)) == SavedImagePath(filename)
  {
    var stem := Stem(filename);
    JoinFolder();
    JoinIntoFolder("pred_outcome_" + stem + ".png");
    PathAssociates(stem);
  }

  lemma JoinFolder()
    ensures JoinPath("static", "PRED_FOLDER") == "static/PRED_FOLDER"
  {
  }

  lemma JoinIntoFolder(file: string)
    requires |file| > 0 && file[0] != '/'
    ensures JoinPath("static/PRED_FOLDER", file) == "static/PRED_FOLDER/" + file
  {
  }

  lemma PathAssociates(stem: string)
    ensures "." + ("/" + ("static/PRED_FOLDER/" + ("pred_outcome_" + stem + ".png")))
         == "./static/PRED_FOLDER/pred_outcome_" + stem + ".png"
  {
  }

  /** 'Healthy Image' occurs in a label's text only for the Healthy label. */
  predicate MentionsHealthyImage(l: Label) {
    l == Healthy
  }

  /** The images submit saves (app.py lines 576-598): one figure for every
      image with a classified feature or a healthy verdict, each written to
      the path derived from the uploaded file name. */
  function SavedPaths(filename: string, feats: seq<Option<Triple>>, labels: seq<Label>): (r: seq<string>)
    requires |feats| == |labels|
    ensures |r| <= |feats|
    ensures forall k :: 0 <= k < |r| ==> r[k] == SavedImagePath(filename)
  {
    if |feats| == 0 then []
    else
      var n := |feats| - 1;
      var saves := feats[n].Some? || (feats[n].None? && MentionsHealthyImage(labels[n]));
      SavedPaths(filename, feats[..n], labels[..n]) + (if saves then [SavedImagePath(filename)] else [])
  }

  /** Number of labels other than No Disease. */
  function CountVerdicts(labels: seq<Label>): nat {
    if |labels| == 0 then 0
    else CountVerdicts(labels[..|labels| - 1]) + (if labels[|labels| - 1] != NoDisease then 1 else 0)
  }

  /** After prediction, submit writes exactly one figure per image whose label
      is not No Disease. An upload judged No Disease writes nothing, yet
      submit still answers with the result name of that upload. */
  lemma {:induction false} SavedOncePerDiseaseOrHealthy(filename: string, feats: seq<Option<Triple>>, labels: seq<Label>)
    requires |feats| == |labels|
    requires forall k :: 0 <= k < |feats| ==> feats[k].None? ==> labels[k] == Healthy || labels[k] == NoDisease
    requires forall k :: 0 <= k < |feats| ==> feats[k].Some? ==> labels[k] != NoDisease
    ensures |SavedPaths(filename, feats, labels)| == CountVerdicts(labels)
  {
    if |feats| > 0 {
      var n := |feats| - 1;
      SavedOncePerDiseaseOrHealthy(filename, feats[..n], labels[..n]);
    }
  }

  /** The same statement for what prediction returns. */
  lemma SubmitSavesUnlessNoDisease(filename: string, tFeatures: seq<seq<Triple>>, model: Classifier,
                                   expl: TrainingTable, mid: TrainingTable, begin: TrainingTable)
    ensures var (feats, labels) := Prediction(tFeatures, model, expl, mid, begin);
      |SavedPaths(filename, feats, labels)| == CountVerdicts(labels)
  {
    var (feats, labels) := Prediction(tFeatures, model, expl, mid, begin);
    SavedOncePerDiseaseOrHealthy(filename, feats, labels);
  }
}
