/** The URL dialog (static/main.js, EnterUrlDialogComponent): a text field
    bound to `url` and two buttons, Save and Cancel, that close the dialog
    through its dialog reference. */
module UrlDialog {

  /** The value bound to the text field: a string, or null. */
  datatype Url = Null | Text(s: string)

  /** A call of `dialogRef.close`: without a result (Cancel), or with
      `{success, url}` (Save). */
  datatype Close = Dismissed | Saved(success: bool, url: string)

  /** Component state: the bound url and the close calls made so far. */
  datatype Dialog = Dialog(url: Url, closes: seq<Close>)

  /** The constructor: an empty text field, nothing closed. */
  function NewDialog(): (d: Dialog)
    ensures d.url == Text("") && |d.closes| == 0
  {
    Dialog(Text(""), [])
  }

  /** The field's ngModelChange listener stores what the user typed. */
  function EditUrl(d: Dialog, v: Url): (d': Dialog)
    ensures d'.url == v && d'.closes == d.closes
  {
    d.(url := v)
  }

  /** A url Save accepts: neither '' nor null. */
  predicate Accepted(u: Url) {
    u.Text? && u.s != ""
  }

  /** onSave: with '' or null it returns and nothing changes; otherwise it
      closes once with exactly `{success: true, url}`. */
  function OnSave(d: Dialog): (d': Dialog)
    ensures !Accepted(d.url) ==> d' == d
    ensures Accepted(d.url) ==> d'.url == d.url && d'.closes == d.closes + [Saved(true, d.url.s)]
  {
    if d.url == Text("") || d.url == Null then d
    else d.(closes := d.closes + [Saved(true, d.url.s)])
  }

  /** onCancel: closes once without a result, whatever the field holds. */
  function OnCancel(d: Dialog): (d': Dialog)
    ensures d'.url == d.url && d'.closes == d.closes + [Dismissed]
  {
    d.(closes := d.closes + [Dismissed])
  }

  datatype Event = Edit(v: Url) | Save | Cancel

  function Step(d: Dialog, e: Event): Dialog {
    match e
    case Edit(v) => EditUrl(d, v)
    case Save => OnSave(d)
    case Cancel => OnCancel(d)
  }

  /** The state after a sequence of user events. */
  function Run(d: Dialog, events: seq<Event>): Dialog
    decreases |events|
  {
    if |events| == 0 then d else Run(Step(d, events[0]), events[1..])
  }

  /** Every close with a result reports success with a non-empty url. */
  predicate ClosesWellFormed(d: Dialog) {
    forall k :: 0 <= k < |d.closes| ==> d.closes[k].Saved? ==> d.closes[k].success && d.closes[k].url != ""
  }

  /** Number of Save and Cancel events that close the dialog, starting from
      the url u. */
  function ClosingEvents(u: Url, events: seq<Event>): nat
    decreases |events|
  {
    if |events| == 0 then 0
    else match events[0]
      case Edit(v) => ClosingEvents(v, events[1..])
      case Save => (if Accepted(u) then 1 else 0) + ClosingEvents(u, events[1..])
      case Cancel => 1 + ClosingEvents(u, events[1..])
  }

  /** Along any sequence of events, the dialog only ever closes with no
      result or with `{success: true, url}` for a non-empty url, and it
      closes once per Cancel and once per Save with an accepted url; a Save
      with an empty or null url leaves no trace. */
  lemma {:induction false} RunKeepsClosesWellFormed(d: Dialog, events: seq<Event>)
    requires ClosesWellFormed(d)
    ensures ClosesWellFormed(Run(d, events))
    ensures |Run(d, events).closes| == |d.closes| + ClosingEvents(d.url, events)
    ensures d.closes <= Run(d, events).closes
    decreases |events|
  {
    if |events| > 0 {
      var d1 := Step(d, events[0]);
      assert ClosesWellFormed(d1);
      RunKeepsClosesWellFormed(d1, events[1..]);
    }
  }

  /** The first close call, if any. */
  function Result(d: Dialog): (r: Close)
    requires |d.closes| > 0
  {
    d.closes[0]
  }

  /** From a fresh dialog, whatever the user does, a result carrying a url
      always carries a non-empty one with success set. */
  lemma DialogResultIsNonEmptyUrl(events: seq<Event>)
    ensures var d := Run(NewDialog(), events);
      |d.closes| > 0 && Result(d).Saved? ==> Result(d).success && Result(d).url != ""
  {
    RunKeepsClosesWellFormed(NewDialog(), events);
  }

  /** Typing "http://example.com" and pressing Save closes the dialog with
      exactly `{success: true, url: "http://example.com"}`; pressing Save on
      the empty field closes nothing; Cancel returns no result. */
  lemma DialogScenarios()
    ensures Run(NewDialog(), [Edit(Text("http://example.com")), Save]).closes == [Saved(true, "http://example.com")]
    ensures Run(NewDialog(), [Save]).closes == []
    ensures Run(NewDialog(), [Edit(Text("http://example.com")), Cancel]).closes == [Dismissed]
  {
  }
}
