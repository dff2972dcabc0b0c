/** The upload panel (static/main.js, PlantDiseaseUploadComponent): the
    selected file, its preview, the "Upload Image" button, the POST to
    `submit` and the navigation that follows a successful answer. */
module UploadPanel {
  import opened Wrappers

  /** A browser File: name, size in bytes and content. */
  datatype File = File(name: string, size: nat, content: seq<int>)

  /** A FormData entry value: a Blob, or any other value converted to a string. */
  datatype FormValue = Blob(file: File) | Str(s: string)

  /** An XMLHttpRequest as opened and sent. */
  datatype Request = Request(verb: string, target: string, async: bool, form: seq<(string, FormValue)>)

  /** Component state. `preview` names the file whose data-URL is bound to
      the preview image; `pendingReads` are the FileReader loads started and not yet
      finished; `requests` are the requests sent; `navigation` is the value
      last assigned to `window.location.href`. */
  datatype Panel = Panel(
    file: Option<File>,
    preview: Option<File>,
    pendingReads: seq<File>,
    requests: seq<Request>,
    navigation: Option<seq<string>>)

  /** The component right after its constructor: no file, no preview, no
      read started, nothing sent, no navigation. */
  function NewPanel(): (p: Panel)
    ensures p.file.None? && p.preview.None? && !ShowsUploadButton(p)
    ensures |p.pendingReads| == 0 && |p.requests| == 0 && p.navigation.None?
  {
    Panel(None, None, [], [], None)
  }

  /** The template shows the "Upload Image" button exactly when `file` is set. */
  predicate ShowsUploadButton(p: Panel) {
    p.file.Some?
  }

  /** onFileSelect. `files[0]` is stored first, whatever it is: with an empty
      file list it is undefined, and `readAsDataURL(undefined)` then throws
      before anything else happens. Otherwise a read of the file is started.
      The `size <= 0` check comes after both and guards nothing. */
  function OnFileSelect(p: Panel, files: seq<File>): (p': Panel)
    ensures p'.preview == p.preview && p'.requests == p.requests && p'.navigation == p.navigation
    ensures |files| == 0 ==> p'.file.None? && p'.pendingReads == p.pendingReads
    ensures |files| > 0 ==> p'.file == Some(files[0]) && p'.pendingReads == p.pendingReads + [files[0]]
  {
    if |files| == 0 then
      p.(file := None)
    else
      p.(file := Some(files[0]), pendingReads := p.pendingReads + [files[0]])
  }

  /** A zero-byte file is stored and read exactly like a non-empty one: the
      selection depends on the file alone, not on its size, and the upload
      button appears for it. */
  lemma ZeroByteFileIsStillSelected(p: Panel, f: File)
    requires f.size == 0
    ensures OnFileSelect(p, [f]) == OnFileSelect(p, [f.(size := 1)]).(file := Some(f), pendingReads := p.pendingReads + [f])
    ensures ShowsUploadButton(OnFileSelect(p, [f]))
  {
  }

  /** A started read finishes: `reader.onload` stores its file's data-URL as
      the preview. Reads may finish in any order. */
  function OnReaderLoad(p: Panel, k: nat): (p': Panel)
    requires k < |p.pendingReads|
    ensures p'.preview == Some(p.pendingReads[k])
    ensures p'.file == p.file && p'.requests == p.requests && p'.navigation == p.navigation
    ensures |p'.pendingReads| == |p.pendingReads| - 1
    ensures forall i :: 0 <= i < |p'.pendingReads| ==>
      p'.pendingReads[i] == p.pendingReads[if i < k then i else i + 1]
    ensures multiset(p'.pendingReads) + multiset{p.pendingReads[k]} == multiset(p.pendingReads)
  {
    var rs := p.pendingReads;
    assert rs == rs[..k] + [rs[k]] + rs[k + 1..];
    p.(preview := Some(rs[k]), pendingReads := rs[..k] + rs[k + 1..])
  }

  /** Selecting a file and letting its read finish previews that file. */
  lemma PreviewFollowsSelection(p: Panel, f: File)
    ensures var p1 := OnFileSelect(p, [f]);
      |p1.pendingReads| > 0 && OnReaderLoad(p1, |p1.pendingReads| - 1).preview == Some(f)
  {
  }

  /** Two quick selections whose reads finish out of order leave the preview
      on the first file while the second is the one stored (and uploaded). */
  lemma StalePreviewAfterOutOfOrderReads(a: File, b: File)
    requires a != b
    ensures var p2 := OnFileSelect(OnFileSelect(NewPanel(), [a]), [b]);
      var p3 := OnReaderLoad(OnReaderLoad(p2, 1), 0);
      p3.file == Some(b) && p3.preview == Some(a)
  {
    var p2 := OnFileSelect(OnFileSelect(NewPanel(), [a]), [b]);
    assert p2.pendingReads == [a, b];
  }

  /** `form_data.append('image', this.file)`: the stored file as a Blob, or
      the string "undefined" when no file is stored. */
  function ImageEntry(file: Option<File>): FormValue {
    match file
    case Some(f) => Blob(f)
    case None => Str("undefined")
  }

  /** uploadImage: sends exactly one asynchronous POST to "submit" whose form
      has the single field "image"; when the button is visible, that field
      carries the stored file. Nothing else changes. */
  function UploadImage(p: Panel): (p': Panel)
    ensures |p'.requests| == |p.requests| + 1 && p'.requests[..|p.requests|] == p.requests
    ensures var req := p'.requests[|p.requests|];
      req.verb == "POST" && req.target == "submit" && req.async &&
      |req.form| == 1 && req.form[0].0 == "image"
    ensures ShowsUploadButton(p) ==> p'.requests[|p.requests|].form == [("image", Blob(p.file.value))]
    ensures p'.file == p.file && p'.preview == p.preview && p'.pendingReads == p.pendingReads && p'.navigation == p.navigation
  {
    var formData := [("image", ImageEntry(p.file))];
    p.(requests := p.requests + [Request("POST", "submit", true, formData)])
  }

  /** `sep` occurs in s at index i. */
  predicate OccursAt(s: string, sep: string, i: int) {
    0 <= i && i + |sep| <= |s| && s[i..i + |sep|] == sep
  }

  /** `sep` occurs somewhere in s. */
  ghost predicate HasInfix(s: string, sep: string) {
    exists i :: OccursAt(s, sep, i)
  }

  /** JavaScript's `s.split(sep)` for a non-empty separator: the pieces
      between the left-most non-overlapping occurrences of sep. */
  function Split(s: string, sep: string): (parts: seq<string>)
    requires |sep| > 0
    ensures |parts| >= 1
    decreases |s|
  {
    if |s| < |sep| then [s]
    else if s[..|sep|] == sep then [""] + Split(s[|sep|..], sep)
    else
      var rest := Split(s[1..], sep);
      [[s[0]] + rest[0]] + rest[1..]
  }

  /** `parts.join(sep)`. */
  function Join(parts: seq<string>, sep: string): string
    requires |parts| >= 1
    decreases |parts|
  {
    if |parts| == 1 then parts[0] else parts[0] + sep + Join(parts[1..], sep)
  }

  /** The first piece is a prefix of the joined string. */
  lemma {:induction false} JoinStartsWithFirst(parts: seq<string>, sep: string)
    requires |parts| >= 1
    ensures |parts[0]| <= |Join(parts, sep)| && Join(parts, sep)[..|parts[0]|] == parts[0]
  {
  }

  /** Split and join are inverse: joining the pieces with the separator gives
      the string back, and no piece contains the separator. */
  lemma {:induction false} SplitJoin(s: string, sep: string)
    requires |sep| > 0
    ensures Join(Split(s, sep), sep) == s
    ensures forall k :: 0 <= k < |Split(s, sep)| ==> !HasInfix(Split(s, sep)[k], sep)
    decreases |s|
  {
    var parts := Split(s, sep);
    if |s| < |sep| {
      assert parts == [s];
    } else if s[..|sep|] == sep {
      var tail := s[|sep|..];
      SplitJoin(tail, sep);
      assert parts == [""] + Split(tail, sep);
      assert parts[1..] == Split(tail, sep);
      assert Join(parts, sep) == "" + sep + tail;
      assert s == s[..|sep|] + tail;
      forall k | 0 <= k < |parts|
        ensures !HasInfix(parts[k], sep)
      {
        if k > 0 {
          assert parts[k] == Split(tail, sep)[k - 1];
        }
      }
    } else {
      SplitJoin(s[1..], sep);
      SplitJoinSkipsFirst(s, sep);
    }
  }

  /** The inductive step of SplitJoin when no separator starts at the front:
      the first character joins the first piece of the rest. */
  lemma {:induction false} SplitJoinSkipsFirst(s: string, sep: string)
    requires |sep| > 0 && |s| >= |sep| && s[..|sep|] != sep
    requires Join(Split(s[1..], sep), sep) == s[1..]
    requires forall k :: 0 <= k < |Split(s[1..], sep)| ==> !HasInfix(Split(s[1..], sep)[k], sep)
    ensures Join(Split(s, sep), sep) == s
    ensures forall k :: 0 <= k < |Split(s, sep)| ==> !HasInfix(Split(s, sep)[k], sep)
  {
    var parts := Split(s, sep);
    var rest := Split(s[1..], sep);
    var head := [s[0]] + rest[0];
    assert parts == [head] + rest[1..];
    JoinCons(s[0], rest, sep);
    assert s == [s[0]] + s[1..];
    JoinStartsWithFirst(rest, sep);
    HeadHasNoSeparator(s, rest[0], sep);
    forall k | 0 <= k < |parts|
      ensures !HasInfix(parts[k], sep)
    {
      if k > 0 {
        assert parts[k] == rest[k];
      }
    }
  }

  /** Prepending a character to the first piece prepends it to the join. */
  lemma JoinCons(c: char, rest: seq<string>, sep: string)
    requires |rest| >= 1
    ensures Join([[c] + rest[0]] + rest[1..], sep) == [c] + Join(rest, sep)
  {
    var parts := [[c] + rest[0]] + rest[1..];
    if |rest| > 1 {
      assert parts[1..] == rest[1..];
    }
  }

  /** A piece that starts at a position where sep does not begin, and whose
      tail has no sep, has no sep. */
  lemma HeadHasNoSeparator(s: string, tail: string, sep: string)
    requires |sep| > 0 && |s| >= |sep| && s[..|sep|] != sep
    requires 1 + |tail| <= |s| && [s[0]] + tail == s[..1 + |tail|]
    requires !HasInfix(tail, sep)
    ensures !HasInfix([s[0]] + tail, sep)
  {
    var head := [s[0]] + tail;
    forall i | 0 <= i && i + |sep| <= |head|
      ensures !OccursAt(head, sep, i)
    {
      if i == 0 {
        assert head[..|sep|] == s[..|sep|];
      } else {
        assert head[i..i + |sep|] == tail[i - 1..i - 1 + |sep|];
        assert !OccursAt(tail, sep, i - 1);
      }
    }
  }

  /** A string without the separator splits into itself alone. */
  lemma {:induction false} SplitWithoutSeparator(s: string, sep: string)
    requires |sep| > 0 && !HasInfix(s, sep)
    ensures Split(s, sep) == [s]
    decreases |s|
  {
    if |s| >= |sep| {
      assert !OccursAt(s, sep, 0);
      assert !HasInfix(s[1..], sep) by {
        forall i | 0 <= i && i + |sep| <= |s[1..]|
          ensures !OccursAt(s[1..], sep, i)
        {
          assert s[1..][i..i + |sep|] == s[i + 1..i + 1 + |sep|];
          assert !OccursAt(s, sep, i + 1);
        }
      }
      SplitWithoutSeparator(s[1..], sep);
      assert [s[0]] + s[1..] == s;
    }
  }

  /** A piece followed by the separator starts the joined string. */
  lemma {:induction false} PieceThenSeparatorIsPrefix(parts: seq<string>, sep: string)
    requires |parts| > 1
    ensures |parts[0]| + |sep| <= |Join(parts, sep)|
    ensures Join(parts, sep)[..|parts[0]| + |sep|] == parts[0] + sep
  {
    assert Join(parts, sep) == (parts[0] + sep) + Join(parts[1..], sep);
  }

  /** Split cuts at the left-most occurrences: in every piece but the last,
      no occurrence of the separator starts, not even one that runs into the
      separator that follows the piece. With SplitJoin this fixes the pieces
      uniquely. */
  lemma {:induction false} SplitIsLeftmost(s: string, sep: string)
    requires |sep| > 0
    ensures forall k :: 0 <= k < |Split(s, sep)| - 1 ==>
      !HasInfix(Split(s, sep)[k] + sep[..|sep| - 1], sep)
    decreases |s|
  {
    var parts := Split(s, sep);
    var short := sep[..|sep| - 1];
    if |s| < |sep| {
    } else if s[..|sep|] == sep {
      var tail := s[|sep|..];
      SplitIsLeftmost(tail, sep);
      assert parts == [""] + Split(tail, sep);
      forall k | 0 <= k < |parts| - 1
        ensures !HasInfix(parts[k] + short, sep)
      {
        if k > 0 {
          assert parts[k] == Split(tail, sep)[k - 1];
        } else {
          assert |parts[k] + short| < |sep|;
        }
      }
    } else {
      var rest := Split(s[1..], sep);
      SplitIsLeftmost(s[1..], sep);
      assert parts == [[s[0]] + rest[0]] + rest[1..];
      forall k | 0 <= k < |parts| - 1
        ensures !HasInfix(parts[k] + short, sep)
      {
        if k > 0 {
          assert parts[k] == rest[k];
        } else {
          SplitJoin(s[1..], sep);
          PieceThenSeparatorIsPrefix(rest, sep);
          var tail := rest[0] + short;
          assert s[1..][..|rest[0]| + |sep|] == rest[0] + sep;
          assert [s[0]] + tail == s[..1 + |tail|];
          assert !HasInfix(tail, sep);
          HeadHasNoSeparator(s, tail, sep);
          assert parts[0] + short == [s[0]] + tail;
        }
      }
    }
  }

  /** The response delimiter. */
  const Delimiter := "::"

  /** `xhttp.onreadystatechange`: only a finished request (readyState 4)
      answered with status 200 navigates, to the response text split on
      "::" at its left-most occurrences; every other state change does
      nothing. */
  function OnReadyStateChange(p: Panel, readyState: int, status: int, responseText: string): (p': Panel)
    ensures readyState != 4 || status != 200 ==> p' == p
    ensures readyState == 4 && status == 200 ==>
      && p'.navigation.Some?
      && |p'.navigation.value| >= 1
      && Join(p'.navigation.value, Delimiter) == responseText
      && (forall k :: 0 <= k < |p'.navigation.value| ==> !HasInfix(p'.navigation.value[k], Delimiter))
      && (forall k :: 0 <= k < |p'.navigation.value| - 1 ==>
            !HasInfix(p'.navigation.value[k] + Delimiter[..|Delimiter| - 1], Delimiter))
      && p' == p.(navigation := p'.navigation)
  {
    if readyState == 4 && status == 200 then
      var response := Split(responseText, Delimiter);
      SplitJoin(responseText, Delimiter);
      SplitIsLeftmost(responseText, Delimiter);
      p.(navigation := Some(response))
    else p
  }

  /** A response without "::" navigates to a one-element list holding the
      whole response. */
  lemma NavigationToPlainResponse(p: Panel, responseText: string)
    requires !HasInfix(responseText, Delimiter)
    ensures OnReadyStateChange(p, 4, 200, responseText).navigation == Some([responseText])
  {
    SplitWithoutSeparator(responseText, Delimiter);
  }
}
