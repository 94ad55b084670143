# SDK selection dialog of the Scala plugin, modelled in Dafny

The Scala plugin's "new SDK" dialog lists the Scala SDKs it has found: one row per
SDK, showing its source ("Ivy" for a downloaded one, or a file-system origin) and
its version. The user can:

- choose a row, or clear the selection, in the table;
- confirm the selected row with OK;
- cancel;
- browse the disk for SDK jars;
- download a version.

Download fetches the list of available versions. With several versions it asks
which one to take. It then downloads that version, reloads the table and, if the
freshly downloaded ("Ivy", version) row shows up, selects it and confirms it at once.

The model has three modules:

- `SdkTypes` (`sdk_types.dfy`): the values involved. These are a table row
  `SdkChoice<D>` with an opaque descriptor type `D`, `Option` (Java's `null` is
  `None`), the download `Outcome`, and the error dialogs as `ErrorReport` values.
- `Workflow` (`workflow.dfy`): the dialog as a pure state machine over
  `DialogState` (rows, selected row or -1, result, disposed). It has one
  function per action. It also has `FirstMatch`, the specification of the row
  lookup. `Step` and `Run` replay a sequence of user actions, and lemmas cover
  such sequences.
- `Dialog` (`sdk_selection_dialog.dfy`): the class `SdkSelectionDialog<D>`. Its
  fields are `rows`, `sel`, `result`, `disposed` and `okEnabled`, and its
  methods update them in place as the Java methods do. Each method that acts on
  the dialog has an `ensures` that equates the new `State()` with the `Workflow`
  function of the old state. The selection listener `OnSelectionChanged` only
  recomputes `okEnabled`. The lookup `RowIndexOf` is proved equal to `FirstMatch`. The
  invariant `Valid()` says two things: the selection is unset or in range, and
  the OK button follows the selection listener's rule.

The external collaborators are method parameters. These are the SDK provider's
list, the fetched versions, the version picker's answer, the download's outcome
and the browse resolver's answer.

Two behaviours of the code are worth noting:

- Suppose a download succeeds but its ("Ivy", version) row is not found after the
  reload. When the reload lists at least one SDK, the code leaves the reloaded
  table with row 0 selected, because `updateTable` selects it; only an empty
  reload leaves no row selected.
- A failure while fetching the version list is not caught in this file. So the
  model has no "fetch failed, back to the table" transition.

## Model

| member | source | states |
|---|---|---|
| `Workflow.FirstMatch` | src/org/jetbrains/plugins/scala/project/template/SdkSelectionDialog.java:117-124 | the result is -1 or a row index; a non-negative result is the smallest row whose source and version both match; -1 exactly when no row matches |
| `Workflow.Selection` | src/org/jetbrains/plugins/scala/project/template/SdkSelectionDialog.java:207-208 | a selected row exists exactly when OK is enabled (`sel >= 0`), and it is the row at the cursor |
| `Workflow.Reloaded` | src/org/jetbrains/plugins/scala/project/template/SdkSelectionDialog.java:106-115 | after a reload the table is the provider's list in provider order; the selection is valid; OK is enabled iff the list is non-empty, and then the selected index is 0; result and disposed are untouched |
| `Workflow.Start` | src/org/jetbrains/plugins/scala/project/template/SdkSelectionDialog.java:103 | the constructed dialog shows the provider's list, has no result, is not disposed, and has a row selected iff the list is non-empty, and then it is row 0 |
| `Workflow.WithSelection` | src/org/jetbrains/plugins/scala/project/template/SdkSelectionDialog.java:173 | selecting in-range row `i` makes the selected index exactly `i` and enables OK; nothing else changes |
| `Workflow.Deselected` | src/org/jetbrains/plugins/scala/project/template/SdkSelectionDialog.java:278-283 | clearing the selection leaves no row selected, so OK is disabled; table, result and disposed flag are untouched |
| `Workflow.Confirmed` | src/org/jetbrains/plugins/scala/project/template/SdkSelectionDialog.java:206-211 | OK always disposes; with a selected row the result becomes that row's descriptor, otherwise the result keeps its prior value; the table is untouched |
| `Workflow.Cancelled` | src/org/jetbrains/plugins/scala/project/template/SdkSelectionDialog.java:213-216 | cancel clears the result and disposes, whatever the table state; the table is untouched |
| `Workflow.Browsed` | src/org/jetbrains/plugins/scala/project/template/SdkSelectionDialog.java:188-195 | a browse answer `Some(d)` becomes the result and disposes, independent of the selection; `None` leaves the whole state unchanged |
| `Workflow.AfterDownload` | src/org/jetbrains/plugins/scala/project/template/SdkSelectionDialog.java:156-176 | a failed download leaves the state unchanged; a successful one reloads the table; if the reload lists ("Ivy", version), that first such row is selected, its descriptor is the result and the dialog is disposed; otherwise the state is exactly the plainly reloaded table |
| `Workflow.VersionToDownload` | src/org/jetbrains/plugins/scala/project/template/SdkSelectionDialog.java:139-153 | no version is downloaded for an empty catalog; the only version is downloaded without the picker; with several versions the picker's answer is downloaded, and whatever is downloaded is one of the fetched versions |
| `Workflow.AfterDownloadRequest` | src/org/jetbrains/plugins/scala/project/template/SdkSelectionDialog.java:134-154 | with no version to download (empty catalog, picker closed) or a failed download the state is unchanged; otherwise the result is that of downloading the chosen version |
| `Workflow.DownloadReport` | src/org/jetbrains/plugins/scala/project/template/SdkSelectionDialog.java:139-166 | the "no versions" error is shown exactly for an empty catalog; a download error is shown exactly when a version was attempted and failed, and names exactly the attempted version (one of the fetched ones) and the failure's message; a closed picker shows nothing |
| `Workflow.Step` | src/org/jetbrains/plugins/scala/project/template/SdkSelectionDialog.java:66-88 | each user action (clicking a row, clearing the selection, or a button) keeps the selection valid, replaces the table only with the reload of a download that succeeded, and leaves a result that is unchanged, cleared, from the current table, or offered by the action |
| `Workflow.Run` | src/org/jetbrains/plugins/scala/project/template/SdkSelectionDialog.java:66-99 | any sequence of user actions, row clicks and deselection included, keeps the selection unset or in range |
| `Workflow.ResultIsOffered` | src/org/jetbrains/plugins/scala/project/template/SdkSelectionDialog.java:188-216 | after any sequence of actions, row clicks and deselection included, the result is unchanged, cleared, or a descriptor that was in the table at the start, in the reload of a download that succeeded, or returned by the browse resolver |
| `Workflow.WorkflowResultIsOffered` | src/org/jetbrains/plugins/scala/project/template/SdkSelectionDialog.java:218-222 | from a freshly constructed dialog, any SDK the dialog returns was listed by the provider at construction or by the reload after a successful download, or came from browsing |
| `Workflow.IneffectiveRunKeepsState` | src/org/jetbrains/plugins/scala/project/template/SdkSelectionDialog.java:134-195 | any sequence of cancelled browses, empty catalogs, closed pickers and failed downloads leaves table, selection, result and disposed flag exactly as they were |
| `Workflow.TwoRowsConfirmFirst` | src/org/jetbrains/plugins/scala/project/template/SdkSelectionDialog.java:106-115 | with rows ("Ivy","2.13.8") and ("Maven","2.12.17") row 0 is selected, OK is enabled, and OK returns the first row's descriptor |
| `Workflow.SingleVersionDownloadConfirms` | src/org/jetbrains/plugins/scala/project/template/SdkSelectionDialog.java:143-176 | a single fetched version is downloaded without the picker; when the reload lists it first as an Ivy row, that row's descriptor is the result and the dialog is disposed |
| `Workflow.ClickThenOkReturnsRow` | src/org/jetbrains/plugins/scala/project/template/SdkSelectionDialog.java:206-211 | on a freshly constructed dialog, clicking any listed row `i` and pressing OK returns row `i`'s descriptor, with row `i` selected and the dialog disposed |
| `Dialog.SdkSelectionDialog.constructor` | src/org/jetbrains/plugins/scala/project/template/SdkSelectionDialog.java:52-104 | the new dialog is in the `Start` state for the provider's list and satisfies the invariant |
| `Dialog.SdkSelectionDialog.OnSelectionChanged` | src/org/jetbrains/plugins/scala/project/template/SdkSelectionDialog.java:278-283 | after the listener runs, OK is enabled exactly when a row is selected |
| `Dialog.SdkSelectionDialog.ClearSelection` | src/org/jetbrains/plugins/scala/project/template/SdkSelectionDialog.java:278-283 | the new state is `Deselected` of the old one, and the listener disables OK |
| `Dialog.SdkSelectionDialog.SelectRow` | src/org/jetbrains/plugins/scala/project/template/SdkSelectionDialog.java:173 | moves the selection to an in-range row, enables OK, changes nothing else |
| `Dialog.SdkSelectionDialog.UpdateTable` | src/org/jetbrains/plugins/scala/project/template/SdkSelectionDialog.java:106-115 | the new state is `Reloaded` of the old one; OK is enabled iff the list is non-empty |
| `Dialog.SdkSelectionDialog.RowIndexOf` | src/org/jetbrains/plugins/scala/project/template/SdkSelectionDialog.java:117-124 | the scan returns `FirstMatch`: -1 or an in-range index of a matching row, and -1 exactly when no row matches |
| `Dialog.SdkSelectionDialog.OnOK` | src/org/jetbrains/plugins/scala/project/template/SdkSelectionDialog.java:206-211 | the new state is `Confirmed` of the old one; the OK button is untouched |
| `Dialog.SdkSelectionDialog.OnCancel` | src/org/jetbrains/plugins/scala/project/template/SdkSelectionDialog.java:213-216 | the new state is `Cancelled` of the old one |
| `Dialog.SdkSelectionDialog.OnBrowse` | src/org/jetbrains/plugins/scala/project/template/SdkSelectionDialog.java:188-195 | the new state is `Browsed` of the old one for the resolver's answer |
| `Dialog.SdkSelectionDialog.DownloadVersionWithProgress` | src/org/jetbrains/plugins/scala/project/template/SdkSelectionDialog.java:156-176 | the new state is `AfterDownload` of the old one; a failure reports the version and the failure's message, a success reports nothing |
| `Dialog.SdkSelectionDialog.OnDownload` | src/org/jetbrains/plugins/scala/project/template/SdkSelectionDialog.java:134-154 | the new state is `AfterDownloadRequest` of the old one, and the error shown is `DownloadReport` |

## Left out

- Window plumbing is not modelled: the title, the content pane, modality, the default button, key bindings, the window listener and the generated layout (`$$$setupUI$$$`). The window's close box and the Escape key only call `onCancel`, which is modelled as `OnCancel`.
- `open()` is not modelled: it packs the window, places it, shows it and then returns `mySelectedSdk`. The field `result` is that returned value.
- The version catalog (`Versions.loadScalaVersions`), the installer (`Downloader.downloadScala`) and the progress context that runs them are not modelled. Their results are parameters: the fetched `versions` and the download `outcome`. Progress messages never touch the dialog's state, so they are left out.
- A failure while fetching versions is not modelled. The code does not catch it, so it leaves `onDownload` as an exception.
- Error dialogs are returned as `ErrorReport` values. Their titles and placement are not modelled.
- The `canBrowse` flag only hides the Browse button, so it is not modelled: `OnBrowse` may always be called.
- The protected hooks are not modelled: `getLanguageName`, `setDownloadButtonText`, `getSdkTableModel`, `downloadVersion` and `fetchVersions`. They only supply texts, a table model or the foreign calls above.
- `SdkTableModel`, `SdkChoice`, `SdkDescriptor`, `SelectionDialog` and `SdkSelection.chooseScalaSdkFiles` are not part of this model. A descriptor is the opaque type `D`. Columns 0 and 1 of a row are its source and its version.
- Dialog.SdkSelectionDialog.OnDownload: assumes the version picker answers with one of the versions it offers or with nothing (`PickerAnswers`). The picker's code is not part of this model.
- Dialog.SdkSelectionDialog.constructor: the model starts with OK enabled exactly when the initial list is non-empty. In the toolkit a button starts enabled, and loading an empty list into an unselected table raises no selection event. So with an empty initial list the real OK button may stay enabled. Pressing it then only disposes the dialog without a result, which is the same as cancelling.
- Table sorting is not modelled: the view's row order is taken to be the model's order. The lookup reads the view's rows, and OK indexes the model's items with the view's selected row.
- Actions after `dispose()` are not excluded. The dialog is modal, so no further action reaches it after disposal, but the model's methods do not require `!disposed`.
