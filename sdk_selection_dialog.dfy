/** The SDK selection dialog as an object whose fields its actions update in
    place. The provider's list, the fetched versions, the picker's answer,
    the download outcome and the browse result are parameters, so each
    action is a deterministic transition, proved equal to the corresponding
    function of module Workflow. */
module Dialog {
  import opened SdkTypes
  import Workflow

  class SdkSelectionDialog<D> {
    /** The items of the table model, in provider order. */
    var rows: seq<SdkChoice<D>>
    /** The selected row of the table, -1 when none is selected. */
    var sel: int
    /** The SDK `open()` returns; `None` is Java's `null`. */
    var result: Option<D>
    /** Whether `dispose()` has closed the dialog. */
    var disposed: bool
    /** Whether the OK button is enabled. */
    var okEnabled: bool

    /** The selection is unset or in range, and the OK button follows the
        selection listener's rule. */
    ghost predicate Valid()
      reads this
    {
      Workflow.ValidState(State()) && okEnabled == Workflow.OkEnabled(sel)
    }

    /** The abstract state of the dialog. */
    ghost function State(): Workflow.DialogState<D>
      reads this
    {
      Workflow.DialogState(rows, sel, result, disposed)
    }

    /** Builds the dialog and fills the table from the provider. */
    constructor (items: seq<SdkChoice<D>>)
      ensures Valid()
      ensures State() == Workflow.Start(items)
    {
      rows := [];
      sel := -1;
      result := None;
      disposed := false;
      okEnabled := false;
      new;
      UpdateTable(items);
    }

    /** The selection listener: recomputes whether OK is enabled. */
    method OnSelectionChanged()
      modifies this`okEnabled
      ensures okEnabled == Workflow.OkEnabled(sel)
    {
      okEnabled := sel >= 0;
    }

    /** Clears the selection, as a user's deselecting click does; the
        listener runs. */
    method ClearSelection()
      requires Valid()
      modifies this
      ensures Valid()
      ensures State() == Workflow.Deselected(old(State()))
      ensures !okEnabled
    {
      sel := -1;
      OnSelectionChanged();
    }

    /** Selects exactly row `i`, as a click on the row or
        `setSelectionInterval(i, i)` does; the listener runs. */
    method SelectRow(i: int)
      requires Valid()
      requires 0 <= i < |rows|
      modifies this
      ensures Valid()
      ensures State() == Workflow.WithSelection(old(State()), i)
      ensures okEnabled
    {
      sel := i;
      OnSelectionChanged();
    }

    /** Replaces the table with the provider's list. Replacing the items
        clears the selection; a non-empty list then gets row 0 selected. */
    method UpdateTable(items: seq<SdkChoice<D>>)
      modifies this
      ensures Valid()
      ensures State() == Workflow.Reloaded(old(State()), items)
      ensures okEnabled <==> |items| > 0
    {
      rows := items;
      sel := -1;
      OnSelectionChanged();
      if |items| > 0 {
        SelectRow(0);
      }
    }

    /** The first row showing (source, version), or -1. */
    method RowIndexOf(source: string, version: string) returns (i: int)
      ensures i == Workflow.FirstMatch(rows, source, version)
      ensures -1 <= i < |rows|
      ensures i >= 0 ==> Workflow.Matches(rows[i], source, version)
      ensures i == -1 <==> forall j :: 0 <= j < |rows| ==> !Workflow.Matches(rows[j], source, version)
    {
      var n := 0;
      while n < |rows|
        invariant 0 <= n <= |rows|
        invariant forall j :: 0 <= j < n ==> !Workflow.Matches(rows[j], source, version)
      {
        if source == rows[n].source && version == rows[n].version {
          return n;
        }
        n := n + 1;
      }
      return -1;
    }

    /** OK: takes the selected row's SDK when a row is selected, then
        disposes the dialog. */
    method OnOK()
      requires Valid()
      modifies this
      ensures Valid()
      ensures State() == Workflow.Confirmed(old(State()))
      ensures okEnabled == old(okEnabled)
    {
      if sel >= 0 {
        result := Some(rows[sel].sdk);
      }
      disposed := true;
    }

    /** Cancel (also the window's close box and Escape): clears the SDK and
        disposes the dialog. */
    method OnCancel()
      requires Valid()
      modifies this
      ensures Valid()
      ensures State() == Workflow.Cancelled(old(State()))
      ensures okEnabled == old(okEnabled)
    {
      result := None;
      disposed := true;
    }

    /** Browse: `chosen` is the browse resolver's answer. */
    method OnBrowse(chosen: Option<D>)
      requires Valid()
      modifies this
      ensures Valid()
      ensures State() == Workflow.Browsed(old(State()), chosen)
      ensures okEnabled == old(okEnabled)
    {
      if chosen.Some? {
        result := chosen;
        disposed := true;
      }
    }

    /** Downloads `version`; `outcome` is what the progress context
        yields and `reloaded` what the provider lists afterwards. Returns the
        error dialog shown, if any. */
    method DownloadVersionWithProgress(version: string, outcome: Outcome,
                                       reloaded: seq<SdkChoice<D>>)
      returns (report: Option<ErrorReport>)
      requires Valid()
      modifies this
      ensures Valid()
      ensures State() == Workflow.AfterDownload(old(State()), version, outcome, reloaded)
      ensures report == if outcome.Failure? then Some(DownloadFailed(version, outcome.message)) else None
    {
      if outcome.Failure? {
        return Some(DownloadFailed(version, outcome.message));
      }
      UpdateTable(reloaded);
      var rowIndex := RowIndexOf(IVY, version);
      if rowIndex >= 0 {
        SelectRow(rowIndex);
        OnOK();
      }
      return None;
    }

    /** Download: `versions` is the fetched catalog, `pick` the picker's
        answer (asked only for two or more versions). */
    method OnDownload(versions: seq<string>, pick: Option<string>, outcome: Outcome,
                      reloaded: seq<SdkChoice<D>>)
      returns (report: Option<ErrorReport>)
      requires Valid()
      requires Workflow.PickerAnswers(versions, pick)
      modifies this
      ensures Valid()
      ensures State() == Workflow.AfterDownloadRequest(old(State()), versions, pick, outcome, reloaded)
      ensures report == Workflow.DownloadReport(versions, pick, outcome)
    {
      if |versions| == 0 {
        report := Some(NoVersionsAvailable);
      } else if |versions| == 1 {
        report := DownloadVersionWithProgress(versions[0], outcome, reloaded);
      } else {
        report := None;
        if pick.Some? {
          report := DownloadVersionWithProgress(pick.value, outcome, reloaded);
        }
      }
    }
  }
}
