/** The SDK selection dialog as a pure state machine: what each user action
    does to the table, its selection, the selected SDK and the dialog's
    disposed flag. The class in module Dialog is proved against these
    functions. */
module Workflow {
  import opened SdkTypes

  /** The observable state of the dialog. `sel == -1` means no row is
      selected; `result` is the SDK that `open()` hands back. */
  datatype DialogState<D> = DialogState(
    rows: seq<SdkChoice<D>>,
    sel: int,
    result: Option<D>,
    disposed: bool)

  /** The selection is either unset or a row of the table. */
  predicate ValidState<D>(s: DialogState<D>) {
    -1 <= s.sel < |s.rows|
  }

  /** The rule of the selection listener: OK is enabled exactly when a row
      is selected. */
  predicate OkEnabled(sel: int) {
    sel >= 0
  }

  /** Row `c` shows `source` in column 0 and `version` in column 1. */
  predicate Matches<D>(c: SdkChoice<D>, source: string, version: string) {
    c.source == source && c.version == version
  }

  /** The index of the first row that shows (source, version), or -1. */
  function FirstMatch<D>(rows: seq<SdkChoice<D>>, source: string, version: string): (i: int)
    ensures -1 <= i < |rows|
    ensures i >= 0 ==> Matches(rows[i], source, version)
    ensures i >= 0 ==> forall j :: 0 <= j < i ==> !Matches(rows[j], source, version)
    ensures i == -1 <==> forall j :: 0 <= j < |rows| ==> !Matches(rows[j], source, version)
    decreases |rows|
  {
    if |rows| == 0 then -1
    else if Matches(rows[0], source, version) then 0
    else
      var k := FirstMatch(rows[1..], source, version);
      if k < 0 then -1 else k + 1
  }

  /** The row under the selection cursor, if any. */
  function Selection<D>(s: DialogState<D>): (c: Option<SdkChoice<D>>)
    requires ValidState(s)
    ensures c.Some? <==> OkEnabled(s.sel)
    ensures c.Some? ==> c.value in s.rows && c.value == s.rows[s.sel]
  {
    if s.sel >= 0 then Some(s.rows[s.sel]) else None
  }

  /** The table after it is loaded with the provider's list: exactly that
      list in provider order, with the first row selected when there is one. */
  function Reloaded<D>(s: DialogState<D>, items: seq<SdkChoice<D>>): (t: DialogState<D>)
    ensures ValidState(t)
    ensures t.rows == items
    ensures OkEnabled(t.sel) <==> |items| > 0
    ensures |items| > 0 ==> t.sel == 0 && Selection(t) == Some(items[0])
    ensures t.result == s.result && t.disposed == s.disposed
  {
    DialogState(items, if |items| > 0 then 0 else -1, s.result, s.disposed)
  }

  /** The state right after construction: nothing chosen, not disposed,
      the table loaded from the provider. */
  function Start<D>(items: seq<SdkChoice<D>>): (s: DialogState<D>)
    ensures ValidState(s)
    ensures s.rows == items && s.result == None && !s.disposed
    ensures OkEnabled(s.sel) <==> |items| > 0
    ensures |items| > 0 ==> s.sel == 0
  {
    Reloaded(DialogState([], -1, None, false), items)
  }

  /** The selection moved to row `i`; nothing else changes. */
  function WithSelection<D>(s: DialogState<D>, i: int): (t: DialogState<D>)
    requires 0 <= i < |s.rows|
    ensures ValidState(t) && OkEnabled(t.sel)
    ensures t.sel == i && Selection(t) == Some(s.rows[i])
    ensures t.rows == s.rows && t.result == s.result && t.disposed == s.disposed
  {
    s.(sel := i)
  }

  /** The selection cleared; nothing else changes. */
  function Deselected<D>(s: DialogState<D>): (t: DialogState<D>)
    ensures ValidState(t) && !OkEnabled(t.sel) && Selection(t).None?
    ensures t.sel == -1
    ensures t.rows == s.rows && t.result == s.result && t.disposed == s.disposed
  {
    s.(sel := -1)
  }

  /** OK: the dialog is always disposed; the result becomes the selected
      row's SDK when a row is selected and keeps its value otherwise. */
  function Confirmed<D>(s: DialogState<D>): (t: DialogState<D>)
    requires ValidState(s)
    ensures ValidState(t) && t.disposed
    ensures Selection(s).Some? ==> t.result == Some(Selection(s).value.sdk)
    ensures Selection(s).None? ==> t.result == s.result
    ensures t.rows == s.rows && t.sel == s.sel
  {
    var r := if s.sel >= 0 then Some(s.rows[s.sel].sdk) else s.result;
    s.(result := r, disposed := true)
  }

  /** Cancel: no SDK is chosen and the dialog is disposed, whatever the
      table shows; the table itself is untouched. */
  function Cancelled<D>(s: DialogState<D>): (t: DialogState<D>)
    ensures t.result == None && t.disposed
    ensures t.rows == s.rows && t.sel == s.sel
  {
    s.(result := None, disposed := true)
  }

  /** Browse: an SDK picked on disk is chosen at once, without looking at
      the table selection; a cancelled browse changes nothing. */
  function Browsed<D>(s: DialogState<D>, chosen: Option<D>): (t: DialogState<D>)
    ensures chosen.None? ==> t == s
    ensures chosen.Some? ==> t.result == chosen && t.disposed
    ensures t.rows == s.rows && t.sel == s.sel
  {
    match chosen
    case None => s
    case Some(_) => s.(result := chosen, disposed := true)
  }

  /** A download run under the progress context. A failure returns before
      any reload. A success reloads the table; when it then shows the
      ("Ivy", version) row, that row is selected and confirmed. */
  function AfterDownload<D>(s: DialogState<D>, version: string, outcome: Outcome,
                            reloaded: seq<SdkChoice<D>>): (t: DialogState<D>)
    requires ValidState(s)
    ensures ValidState(t)
    ensures outcome.Failure? ==> t == s
    ensures outcome.Success? ==> t.rows == reloaded
    ensures outcome.Success? && FirstMatch(reloaded, IVY, version) >= 0 ==>
      var k := FirstMatch(reloaded, IVY, version);
      t.sel == k && t.result == Some(reloaded[k].sdk) && t.disposed
    ensures outcome.Success? && FirstMatch(reloaded, IVY, version) < 0 ==>
      t == Reloaded(s, reloaded) && t.disposed == s.disposed
  {
    match outcome
    case Failure(_) => s
    case Success =>
      var loaded := Reloaded(s, reloaded);
      var k := FirstMatch(reloaded, IVY, version);
      if k >= 0 then Confirmed(WithSelection(loaded, k)) else loaded
  }

  /** What the version picker may answer: one of the versions it offers,
      or nothing when the user closes it. Only consulted for two or more
      versions. */
  predicate PickerAnswers(versions: seq<string>, pick: Option<string>) {
    |versions| > 1 && pick.Some? ==> pick.value in versions
  }

  /** The version a download request goes on to download: none for an
      empty catalog, the only one without asking when there is one, and
      the picker's answer otherwise. */
  function VersionToDownload(versions: seq<string>, pick: Option<string>): (v: Option<string>)
    requires PickerAnswers(versions, pick)
    ensures v.Some? ==> v.value in versions
    ensures |versions| == 0 ==> v.None?
    ensures |versions| == 1 ==> v == Some(versions[0])
    ensures |versions| > 1 ==> v == pick
  {
    if |versions| == 0 then None
    else if |versions| == 1 then Some(versions[0])
    else pick
  }

  /** The download button: fetch the versions, choose one, download it. */
  function AfterDownloadRequest<D>(s: DialogState<D>, versions: seq<string>, pick: Option<string>,
                                   outcome: Outcome, reloaded: seq<SdkChoice<D>>): (t: DialogState<D>)
    requires ValidState(s)
    requires PickerAnswers(versions, pick)
    ensures ValidState(t)
    ensures VersionToDownload(versions, pick).None? ==> t == s
    ensures outcome.Failure? ==> t == s
    ensures VersionToDownload(versions, pick).Some? ==>
      t == AfterDownload(s, VersionToDownload(versions, pick).value, outcome, reloaded)
  {
    match VersionToDownload(versions, pick)
    case None => s
    case Some(v) => AfterDownload(s, v, outcome, reloaded)
  }

  /** The error dialog a download request shows, if any: one for an empty
      catalog, one for a failed download; a closed picker is silent. */
  function DownloadReport(versions: seq<string>, pick: Option<string>, outcome: Outcome): (r: Option<ErrorReport>)
    requires PickerAnswers(versions, pick)
    ensures r == Some(NoVersionsAvailable) <==> |versions| == 0
    ensures r.Some? && r.value.DownloadFailed? <==>
      VersionToDownload(versions, pick).Some? && outcome.Failure?
    ensures r.Some? && r.value.DownloadFailed? ==>
      r.value == DownloadFailed(VersionToDownload(versions, pick).value, outcome.message) &&
      r.value.version in versions
  {
    match VersionToDownload(versions, pick)
    case None => if |versions| == 0 then Some(NoVersionsAvailable) else None
    case Some(v) =>
      match outcome
      case Failure(msg) => Some(DownloadFailed(v, msg))
      case Success => None
  }

  /** The user's actions once the dialog is open: clicking a table row (the
      toolkit selects it, or keeps the selection for a click outside the
      rows), clearing the selection, and the four buttons. */
  datatype Action<D> =
    | ClickRow(i: int)
    | ClearSelection
    | PressOK
    | PressCancel
    | PressBrowse(chosen: Option<D>)
    | PressDownload(versions: seq<string>, pick: Option<string>, outcome: Outcome,
                    reloaded: seq<SdkChoice<D>>)

  predicate Admissible<D>(a: Action<D>) {
    a.PressDownload? ==> PickerAnswers(a.versions, a.pick)
  }

  ghost predicate AllAdmissible<D>(acts: seq<Action<D>>) {
    forall k :: 0 <= k < |acts| ==> Admissible(acts[k])
  }

  /** Action `a` is a download request that really reloads the table: a
      version was chosen and its download succeeded. */
  predicate Reloads<D>(a: Action<D>) {
    a.PressDownload? && PickerAnswers(a.versions, a.pick) &&
    VersionToDownload(a.versions, a.pick).Some? && a.outcome.Success?
  }

  /** Descriptor `d` is shown by some row of `rows`. */
  ghost predicate InTable<D>(d: D, rows: seq<SdkChoice<D>>) {
    exists i :: 0 <= i < |rows| && rows[i].sdk == d
  }

  /** Action `a` puts descriptor `d` in front of the dialog: the browse
      resolver returned it, or the reload after a successful download
      listed it. */
  ghost predicate OfferedBy<D>(d: D, a: Action<D>) {
    match a
    case PressBrowse(chosen) => chosen == Some(d)
    case PressDownload(_, _, _, reloaded) => Reloads(a) && InTable(d, reloaded)
    case _ => false
  }

  /** `d` was shown in the table `rows` or offered by one of `acts`. */
  ghost predicate Offered<D>(d: D, rows: seq<SdkChoice<D>>, acts: seq<Action<D>>) {
    InTable(d, rows) || exists k :: 0 <= k < |acts| && OfferedBy(d, acts[k])
  }

  /** One user action. The table is replaced only by a download's reload,
      and a new result is either cleared, taken from the current table, or
      offered by the action itself. */
  function Step<D>(s: DialogState<D>, a: Action<D>): (t: DialogState<D>)
    requires ValidState(s) && Admissible(a)
    ensures ValidState(t)
    ensures t.rows == s.rows || (Reloads(a) && t.rows == a.reloaded)
    ensures t.result == s.result || t.result.None? ||
            InTable(t.result.value, s.rows) || OfferedBy(t.result.value, a)
  {
    match a
    case ClickRow(i) => if 0 <= i < |s.rows| then WithSelection(s, i) else s
    case ClearSelection => Deselected(s)
    case PressOK => Confirmed(s)
    case PressCancel => Cancelled(s)
    case PressBrowse(chosen) => Browsed(s, chosen)
    case PressDownload(versions, pick, outcome, reloaded) =>
      var t := AfterDownloadRequest(s, versions, pick, outcome, reloaded);
      assert t.result == s.result || t.result.None? || InTable(t.result.value, reloaded) by {
        var v := VersionToDownload(versions, pick);
        if v.Some? && outcome.Success? {
          var k := FirstMatch(reloaded, IVY, v.value);
          if k >= 0 {
            assert reloaded[k].sdk == t.result.value;
          }
        }
      }
      t
  }

  /** The actions applied one after another. */
  function Run<D>(s: DialogState<D>, acts: seq<Action<D>>): (t: DialogState<D>)
    requires ValidState(s) && AllAdmissible(acts)
    ensures ValidState(t)
    decreases |acts|
  {
    if acts == [] then s else Run(Step(s, acts[0]), acts[1..])
  }

  /** Whatever the user does, the result is cleared, unchanged, or a
      descriptor that was shown in the table or returned by the browse
      resolver. */
  lemma {:induction false} ResultIsOffered<D>(s: DialogState<D>, acts: seq<Action<D>>)
    requires ValidState(s) && AllAdmissible(acts)
    ensures var t := Run(s, acts);
      t.result == s.result || t.result.None? || Offered(t.result.value, s.rows, acts)
    decreases |acts|
  {
    if acts != [] {
      var s1 := Step(s, acts[0]);
      var rest := acts[1..];
      assert AllAdmissible(rest) by {
        forall k | 0 <= k < |rest| ensures Admissible(rest[k]) {
          assert rest[k] == acts[k + 1];
        }
      }
      ResultIsOffered(s1, rest);
      var t := Run(s, acts);
      assert t == Run(s1, rest);
      if t.result.Some? && t.result != s.result {
        var d := t.result.value;
        if t.result == s1.result {
          // the first action produced the result
          if !InTable(d, s.rows) {
            assert OfferedBy(d, acts[0]);
          }
        } else {
          assert Offered(d, s1.rows, rest);
          if InTable(d, s1.rows) {
            if s1.rows != s.rows {
              assert OfferedBy(d, acts[0]);
            }
          } else {
            var k :| 0 <= k < |rest| && OfferedBy(d, rest[k]);
            assert rest[k] == acts[k + 1];
          }
        }
      }
    }
  }

  /** From the freshly constructed dialog, the SDK the dialog returns is
      always one it listed or one the browse resolver produced. */
  lemma WorkflowResultIsOffered<D>(items: seq<SdkChoice<D>>, acts: seq<Action<D>>)
    requires AllAdmissible(acts)
    ensures var t := Run(Start(items), acts);
      t.result.Some? ==> Offered(t.result.value, items, acts)
  {
    ResultIsOffered(Start(items), acts);
  }

  /** An action that leaves the dialog as it is: a cancelled browse, or a
      download request that found no version, was not picked, or failed. */
  predicate Ineffective<D>(a: Action<D>) {
    match a
    case PressBrowse(chosen) => chosen.None?
    case PressDownload(versions, pick, outcome, _) =>
      PickerAnswers(versions, pick) &&
      (VersionToDownload(versions, pick).None? || outcome.Failure?)
    case _ => false
  }

  /** Any number of cancelled browses, empty catalogs, closed pickers and
      failed downloads leave the table, the selection, the result and the
      disposed flag exactly as they were. */
  lemma {:induction false} IneffectiveRunKeepsState<D>(s: DialogState<D>, acts: seq<Action<D>>)
    requires ValidState(s)
    requires forall k :: 0 <= k < |acts| ==> Ineffective(acts[k])
    ensures AllAdmissible(acts)
    ensures Run(s, acts) == s
    decreases |acts|
  {
    if acts != [] {
      var rest := acts[1..];
      assert forall k :: 0 <= k < |rest| ==> Ineffective(rest[k]) by {
        forall k | 0 <= k < |rest| ensures Ineffective(rest[k]) {
          assert rest[k] == acts[k + 1];
        }
      }
      IneffectiveRunKeepsState(s, rest);
      assert Step(s, acts[0]) == s;
    }
  }

  /** Two listed SDKs: the first is selected, OK is enabled, and OK
      returns the first row's SDK. */
  lemma TwoRowsConfirmFirst<D>(d1: D, d2: D)
    ensures var s := Start([SdkChoice("Ivy", "2.13.8", d1), SdkChoice("Maven", "2.12.17", d2)]);
      |s.rows| == 2 && s.sel == 0 && OkEnabled(s.sel) && Confirmed(s).result == Some(d1)
  {
  }

  /** A single fetched version is downloaded without the picker; when the
      reload lists it as an Ivy row first, the dialog confirms that row. */
  lemma SingleVersionDownloadConfirms<D>(s: DialogState<D>, d: D, others: seq<SdkChoice<D>>)
    requires ValidState(s)
    ensures var t := AfterDownloadRequest(s, ["2.13.9"], None, Success,
                                          [SdkChoice("Ivy", "2.13.9", d)] + others);
      t.result == Some(d) && t.disposed && t.sel == 0
  {
  }

  /** Choosing any listed row and pressing OK returns that row's SDK. */
  lemma {:induction false} ClickThenOkReturnsRow<D>(items: seq<SdkChoice<D>>, i: int)
    requires 0 <= i < |items|
    ensures var t := Run(Start(items), [ClickRow(i), PressOK]);
      t.sel == i && t.result == Some(items[i].sdk) && t.disposed
  {
    var s0 := Start(items);
    var s1 := Step(s0, ClickRow(i));
    assert s1 == WithSelection(s0, i);
    var acts: seq<Action<D>> := [ClickRow(i), PressOK];
    assert acts[1..] == [PressOK];
    assert Run(s1, [PressOK]) == Run(Confirmed(s1), []);
  }
}
