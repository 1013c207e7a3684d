/** The page that drives a batch: the file list and its transitions (select,
    remove, per-id status updates), the tab switch that resets the page, and
    processFiles, which runs the selected service over every listed file in
    order, downloads each success, records it in the history and marks each file
    completed or failed. */
module BatchDriver {
  import opened Basics
  import opened EncryptionService
  import opened FileService
  import opened PasswordInput

  datatype Status = Pending | Processing | Completed | Error

  /** One row of the file list; `content` stands for the original File object. */
  datatype FileItem = FileItem(id: string, name: string, size: nat, mimeType: string,
                               status: Status, error: Option<string>, content: seq<byte>)

  /** A file as the drop zone hands it over. */
  datatype SelectedFile = SelectedFile(name: string, mimeType: string, content: seq<byte>)

  /** The fresh id and the clock reading used for one history entry. */
  datatype Stamp = Stamp(id: string, date: int)

  /** The page's state; `storage` is what the browser's storage holds. */
  datatype PageState = PageState(tab: Mode, files: seq<FileItem>, password: AsciiString,
                                 isProcessing: bool, progress: int,
                                 recent: seq<RecentFile>, storage: Stored)

  predicate DistinctIds(files: seq<FileItem>) {
    forall i, j :: 0 <= i < j < |files| ==> files[i].id != files[j].id
  }

  /** The page as first rendered: empty list and password, encrypt tab, and the
      history read from storage. */
  function Mount(storage: Stored): (st: PageState)
    ensures st.tab == Encrypt && st.files == [] && st.password == ""
    ensures !st.isProcessing && st.progress == 0
    ensures st.recent == GetRecentFiles(storage) && st.storage == storage
  {
    PageState(Encrypt, [], "", false, 0, GetRecentFiles(storage), storage)
  }

  // ---------------------------------------------------------------------------
  // File list transitions

  function NewItem(file: SelectedFile, id: string): FileItem {
    FileItem(id, file.name, |file.content|, file.mimeType, Pending, None, file.content)
  }

  /** handleFileSelect: the selected files, each pending under its fresh id, are
      appended after the existing ones. */
  function AppendSelected(files: seq<FileItem>, selected: seq<SelectedFile>, ids: seq<string>): (r: seq<FileItem>)
    requires |ids| == |selected|
    ensures |r| == |files| + |selected| && r[..|files|] == files
    ensures forall i :: 0 <= i < |selected| ==>
              var item := r[|files| + i];
              item.status == Pending && item.error.None? && item.id == ids[i]
              && item.name == selected[i].name && item.mimeType == selected[i].mimeType
              && item.content == selected[i].content
              && item.size == |selected[i].content|
  {
    files + seq(|selected|, i requires 0 <= i < |selected| => NewItem(selected[i], ids[i]))
  }

  /** handleRemoveFile: `files.filter(f => f.id !== id)`. */
  function RemoveById(files: seq<FileItem>, id: string): (r: seq<FileItem>)
    ensures forall f :: f in r <==> f in files && f.id != id
    ensures |r| <= |files|
  {
    if files == [] then []
    else (if files[0].id == id then [] else [files[0]]) + RemoveById(files[1..], id)
  }

  /** Removal works item by item, so it keeps the survivors in their order. */
  lemma {:induction false} RemoveByIdAppend(a: seq<FileItem>, b: seq<FileItem>, id: string)
    ensures RemoveById(a + b, id) == RemoveById(a, id) + RemoveById(b, id)
  {
    if a != [] {
      assert (a + b)[1..] == a[1..] + b;
      RemoveByIdAppend(a[1..], b, id);
    } else {
      assert a + b == b;
    }
  }

  /** Removing an id nobody has changes nothing. */
  lemma {:induction false} RemoveAbsentId(files: seq<FileItem>, id: string)
    requires forall i :: 0 <= i < |files| ==> files[i].id != id
    ensures RemoveById(files, id) == files
  {
    if files != [] {
      RemoveAbsentId(files[1..], id);
    }
  }

  /** Selecting one file and then removing it restores the list, provided its
      fresh id is not already taken. */
  lemma SelectThenRemove(files: seq<FileItem>, file: SelectedFile, id: string)
    requires forall i :: 0 <= i < |files| ==> files[i].id != id
    ensures RemoveById(AppendSelected(files, [file], [id]), id) == files
  {
    var added := AppendSelected(files, [file], [id]);
    assert added == files + [NewItem(file, id)];
    RemoveByIdAppend(files, [NewItem(file, id)], id);
    RemoveAbsentId(files, id);
    assert RemoveById([NewItem(file, id)], id) == [];
  }

  /** The status changes processFiles makes to one row. */
  datatype Transition = ToProcessing | ToCompleted | ToError(message: string)

  /** `{ ...f, status }`, plus the message for an error; other fields are kept
      (a completed row keeps an error message from an earlier run). */
  function Apply(f: FileItem, t: Transition): (r: FileItem)
    ensures r.id == f.id && r.name == f.name && r.size == f.size
            && r.mimeType == f.mimeType && r.content == f.content
    ensures r.status == (match t case ToProcessing => Processing case ToCompleted => Completed case ToError(_) => Error)
    ensures r.error == (if t.ToError? then Some(t.message) else f.error)
  {
    match t
    case ToProcessing => f.(status := Processing)
    case ToCompleted => f.(status := Completed)
    case ToError(m) => f.(status := Error, error := Some(m))
  }

  /** `files.map(f => f.id === id ? change(f) : f)`. */
  function UpdateById(files: seq<FileItem>, id: string, t: Transition): (r: seq<FileItem>)
    ensures |r| == |files|
    ensures forall k :: 0 <= k < |r| ==> r[k].id == files[k].id && r[k].name == files[k].name
    ensures forall k :: 0 <= k < |r| && files[k].id != id ==> r[k] == files[k]
    ensures forall k :: 0 <= k < |r| && files[k].id == id ==> r[k] == Apply(files[k], t)
  {
    seq(|files|, k requires 0 <= k < |files| => if files[k].id == id then Apply(files[k], t) else files[k])
  }

  /** An update is invisible once the updated id is removed: nothing else changed. */
  lemma {:induction false} UpdateThenRemove(files: seq<FileItem>, id: string, t: Transition)
    ensures RemoveById(UpdateById(files, id, t), id) == RemoveById(files, id)
  {
    if files != [] {
      var u := UpdateById(files, id, t);
      assert u[1..] == UpdateById(files[1..], id, t);
      UpdateThenRemove(files[1..], id, t);
    }
  }

  // ---------------------------------------------------------------------------
  // Page actions

  /** handleFileSelect on the page: only the file list changes. */
  function SelectFiles(st: PageState, selected: seq<SelectedFile>, ids: seq<string>): (r: PageState)
    requires |ids| == |selected|
    ensures r.files == AppendSelected(st.files, selected, ids)
    ensures r.tab == st.tab && r.password == st.password && r.isProcessing == st.isProcessing
            && r.progress == st.progress && r.recent == st.recent && r.storage == st.storage
  {
    st.(files := AppendSelected(st.files, selected, ids))
  }

  /** handleRemoveFile on the page: only the file list changes. */
  function RemoveFile(st: PageState, id: string): (r: PageState)
    ensures r.files == RemoveById(st.files, id)
    ensures r.tab == st.tab && r.password == st.password && r.isProcessing == st.isProcessing
            && r.progress == st.progress && r.recent == st.recent && r.storage == st.storage
  {
    st.(files := RemoveById(st.files, id))
  }

  /** On the page, selecting one file and then removing it by its fresh id gives
      back exactly the page it started from. */
  lemma SelectThenRemoveFile(st: PageState, file: SelectedFile, id: string)
    requires forall i :: 0 <= i < |st.files| ==> st.files[i].id != id
    ensures RemoveFile(SelectFiles(st, [file], [id]), id) == st
  {
    SelectThenRemove(st.files, file, id);
  }

  /** handlePasswordChange of the page: take each value the password form hands
      over, in order; the last one wins. */
  function ReceivePasswords(st: PageState, emissions: seq<Emitted>): (r: PageState)
    decreases |emissions|
    ensures r == (if emissions == [] then st else st.(password := emissions[|emissions| - 1].value))
  {
    if emissions == [] then st
    else ReceivePasswords(st.(password := emissions[0].value), emissions[1..])
  }

  /** On the encrypt tab the page only ever holds a password the form shows as
      confirmed: after any sequence of edits it holds either its earlier password
      or one equal to both fields of the form at the time it was handed over. */
  lemma EncryptPageHoldsConfirmed(st: PageState, form: FormState, events: seq<FormEvent>)
    ensures var run := Run(Encrypt, form, events);
            var r := ReceivePasswords(st, run.emissions);
            r.files == st.files && r.tab == st.tab
            && (r.password == st.password
                || exists e :: e in run.emissions && r.password == e.after.password == e.after.confirm)
  {
    EncryptEmitsOnlyConfirmed(form, events);
    var run := Run(Encrypt, form, events);
    if run.emissions != [] {
      assert run.emissions[|run.emissions| - 1] in run.emissions;
    }
  }

  /** The guard of processFiles, which is also the disabled condition of the
      button that starts it: no files, no password, or a run in progress. */
  predicate Blocked(st: PageState) {
    |st.files| == 0 || st.password == "" || st.isProcessing
  }

  /** handleTabChange: switch tab and reset files, password and progress. */
  function ChangeTab(st: PageState, tab: Mode): (r: PageState)
    ensures r.tab == tab && r.files == [] && r.password == "" && r.progress == 0
    ensures r.isProcessing == st.isProcessing && r.recent == st.recent && r.storage == st.storage
    ensures Blocked(r)
  {
    st.(tab := tab, files := [], password := "", progress := 0)
  }

  /** clearRecentFiles: drop the stored history and the shown one. */
  function ClearRecentFiles(st: PageState): (r: PageState)
    ensures r.recent == [] && GetRecentFiles(r.storage) == [] && r.storage == Missing
    ensures r.files == st.files && r.password == st.password && r.tab == st.tab
    ensures r.isProcessing == st.isProcessing && r.progress == st.progress
  {
    st.(storage := Missing, recent := [])
  }

  // ---------------------------------------------------------------------------
  // processFiles

  /** A result the page treats as a success: `result.success && result.data`. */
  predicate Delivered(result: EncryptionResult) {
    result.success && result.data.Some?
  }

  /** The mode-specific message used when a failure carries no message. */
  function DefaultFailure(mode: Mode): string {
    match mode
    case Encrypt => "Échec du chiffrement du fichier"
    case Decrypt => "Échec du déchiffrement du fichier"
  }

  /** `result.error || default`: an absent or empty message falls back. */
  function ErrorMessage(result: EncryptionResult, mode: Mode): (m: string)
    ensures result.error.Some? && result.error.value != "" ==> m == result.error.value
    ensures result.error.None? || result.error.value == "" ==> m == DefaultFailure(mode)
  {
    if result.error.Some? && result.error.value != "" then result.error.value else DefaultFailure(mode)
  }

  /** The row of a processed file once its run is over. */
  function Settle(f: FileItem, result: EncryptionResult, mode: Mode): FileItem {
    if Delivered(result) then f.(status := Completed)
    else f.(status := Error, error := Some(ErrorMessage(result, mode)))
  }

  /** Downloads and progress values produced by a batch, with the state it ends in. */
  datatype BatchOutcome = BatchOutcome(state: PageState, downloads: seq<Download>, progressLog: seq<int>)

  /** The history entry written for a successful file. */
  function EntryFor(item: FileItem, stamp: Stamp, mode: Mode): RecentFile {
    RecentFile(stamp.id, item.name, stamp.date, mode)
  }

  /** One pass of the loop body: mark the row processing, run the service, then
      either download, mark completed and record it in the history, or mark the
      row failed. The progress bar shows the last value the service reported. */
  function ProcessOne(st: PageState, item: FileItem, stamp: Stamp, mode: Mode, password: AsciiString): (r: BatchOutcome)
    ensures var result := Process(mode, item.content, password).result;
            && |r.state.files| == |st.files|
            && (forall k :: 0 <= k < |st.files| ==>
                  r.state.files[k] == if st.files[k].id == item.id then Settle(st.files[k], result, mode) else st.files[k])
            && (Delivered(result) ==>
                  && r.state.storage == SaveToRecentFiles(st.storage, EntryFor(item, stamp, mode))
                  && r.state.recent == GetRecentFiles(r.state.storage)
                  && r.downloads == [Download(OutputName(item.name, mode), result.data.value)])
            && (!Delivered(result) ==>
                  r.state.storage == st.storage && r.state.recent == st.recent && r.downloads == [])
    ensures r.state.tab == st.tab && r.state.password == st.password && r.state.isProcessing == st.isProcessing
    ensures Delivered(Process(mode, item.content, password).result) ==> r.progressLog == ProgressTrace() && r.state.progress == 100
    ensures !Delivered(Process(mode, item.content, password).result) ==> r.progressLog == [] && r.state.progress == st.progress
  {
    var files := UpdateById(st.files, item.id, ToProcessing);
    var report := Process(mode, item.content, password);
    var result := report.result;
    var progress := if report.progress == [] then st.progress else report.progress[|report.progress| - 1];
    if Delivered(result) then
      var download := SaveFile(result, item.name, mode).value;
      var storage := SaveToRecentFiles(st.storage, EntryFor(item, stamp, mode));
      var next := st.(files := UpdateById(files, item.id, ToCompleted), progress := progress,
                      storage := storage, recent := GetRecentFiles(storage));
      BatchOutcome(next, [download], report.progress)
    else
      var next := st.(files := UpdateById(files, item.id, ToError(ErrorMessage(result, mode))), progress := progress);
      BatchOutcome(next, [], report.progress)
  }

  /** The history entries of the files in `queue` that succeed, in queue order. */
  function SuccessEntries(queue: seq<FileItem>, stamps: seq<Stamp>, mode: Mode, password: AsciiString): seq<RecentFile>
    requires |stamps| == |queue|
    decreases |queue|
  {
    if queue == [] then []
    else
      var here := if Delivered(Process(mode, queue[0].content, password).result)
                  then [EntryFor(queue[0], stamps[0], mode)] else [];
      here + SuccessEntries(queue[1..], stamps[1..], mode, password)
  }

  /** The loop of processFiles over the list as it was when the run started. */
  function ProcessAll(st: PageState, queue: seq<FileItem>, stamps: seq<Stamp>, mode: Mode, password: AsciiString): (r: BatchOutcome)
    requires |stamps| == |queue|
    decreases |queue|
    ensures |r.state.files| == |st.files|
    ensures r.state.tab == st.tab && r.state.password == st.password && r.state.isProcessing == st.isProcessing
    ensures forall v :: v in r.progressLog ==> 0 < v <= 100
  {
    if queue == [] then BatchOutcome(st, [], [])
    else
      var step := ProcessOne(st, queue[0], stamps[0], mode, password);
      var rest := ProcessAll(step.state, queue[1..], stamps[1..], mode, password);
      BatchOutcome(rest.state, step.downloads + rest.downloads, step.progressLog + rest.progressLog)
  }

  /** processFiles: a no-op when blocked; otherwise the whole list is processed with
      the current tab's service and password, and the run ends with the
      processing flag cleared and the progress bar at 0. */
  function ProcessFiles(st: PageState, stamps: seq<Stamp>): (r: BatchOutcome)
    requires |stamps| == |st.files|
    ensures Blocked(st) ==> r == BatchOutcome(st, [], [])
    ensures !Blocked(st) ==> !r.state.isProcessing && r.state.progress == 0
    ensures r.state.tab == st.tab && r.state.password == st.password && |r.state.files| == |st.files|
  {
    if Blocked(st) then BatchOutcome(st, [], [])
    else
      var run := ProcessAll(st.(isProcessing := true), st.files, stamps, st.tab, st.password);
      BatchOutcome(run.state.(isProcessing := false, progress := 0), run.downloads, run.progressLog)
  }

  /** The run button's life cycle: disabled on a freshly mounted page, a click
      while it is disabled does nothing, and a finished run enables it again
      (the list and the password are still there and the run is over). */
  lemma BlockedLifecycle(storage: Stored, st: PageState, stamps: seq<Stamp>)
    requires |stamps| == |st.files|
    ensures Blocked(Mount(storage))
    ensures Blocked(st) ==> ProcessFiles(st, stamps).state == st
    ensures !Blocked(st) ==> !Blocked(ProcessFiles(st, stamps).state)
  {
  }

  // ---------------------------------------------------------------------------
  // Final status of every row

  /** Position of the first row with the given id. */
  function FindId(queue: seq<FileItem>, id: string): (r: Option<nat>)
    ensures r.None? <==> forall i :: 0 <= i < |queue| ==> queue[i].id != id
    ensures r.Some? ==> r.value < |queue| && queue[r.value].id == id
                        && forall i :: 0 <= i < r.value ==> queue[i].id != id
  {
    if queue == [] then None
    else if queue[0].id == id then Some(0)
    else match FindId(queue[1..], id)
      case None => None
      case Some(j) => Some(j + 1)
  }

  /** What a run over `queue` leaves of row `f`: settled by the result of the
      queued file with its id, or untouched when no queued file has it. */
  function FinalRow(f: FileItem, queue: seq<FileItem>, mode: Mode, password: AsciiString): FileItem {
    match FindId(queue, f.id)
    case None => f
    case Some(j) => Settle(f, Process(mode, queue[j].content, password).result, mode)
  }

  lemma FinalRowStep(f: FileItem, queue: seq<FileItem>, mode: Mode, password: AsciiString)
    requires queue != [] && DistinctIds(queue)
    ensures var result := Process(mode, queue[0].content, password).result;
            var g := if f.id == queue[0].id then Settle(f, result, mode) else f;
            FinalRow(g, queue[1..], mode, password) == FinalRow(f, queue, mode, password)
  {
    if f.id == queue[0].id {
      var j := FindId(queue[1..], f.id);
      if j.Some? {
        assert queue[j.value + 1].id == queue[0].id;
      }
    }
  }

  /** With distinct ids, a run over `queue` settles exactly the rows whose id is
      queued, and leaves all other rows as they were. */
  lemma {:induction false} ProcessAllSettles(st: PageState, queue: seq<FileItem>, stamps: seq<Stamp>, mode: Mode, password: AsciiString)
    requires |stamps| == |queue| && DistinctIds(queue)
    decreases |queue|
    ensures var r := ProcessAll(st, queue, stamps, mode, password);
            forall k :: 0 <= k < |st.files| ==> r.state.files[k] == FinalRow(st.files[k], queue, mode, password)
  {
    if queue != [] {
      var step := ProcessOne(st, queue[0], stamps[0], mode, password);
      assert DistinctIds(queue[1..]);
      ProcessAllSettles(step.state, queue[1..], stamps[1..], mode, password);
      forall k | 0 <= k < |st.files|
        ensures ProcessAll(st, queue, stamps, mode, password).state.files[k] == FinalRow(st.files[k], queue, mode, password)
      {
        FinalRowStep(st.files[k], queue, mode, password);
      }
    }
  }

  /** After a run every row is completed when its service delivered data, and
      failed with the service's message (or the mode's default) otherwise; id,
      name and position of every row are kept. */
  lemma RunSettlesEveryFile(st: PageState, stamps: seq<Stamp>)
    requires |stamps| == |st.files| && !Blocked(st) && DistinctIds(st.files)
    ensures var r := ProcessFiles(st, stamps);
            forall k :: 0 <= k < |st.files| ==>
              r.state.files[k] == Settle(st.files[k], Process(st.tab, st.files[k].content, st.password).result, st.tab)
  {
    ProcessAllSettles(st.(isProcessing := true), st.files, stamps, st.tab, st.password);
    forall k | 0 <= k < |st.files|
      ensures FindId(st.files, st.files[k].id) == Some(k)
    {
    }
  }

  /** The history and the downloads of a run come from the successful files only. */
  lemma {:induction false} ProcessAllHistory(st: PageState, queue: seq<FileItem>, stamps: seq<Stamp>, mode: Mode, password: AsciiString)
    requires |stamps| == |queue|
    decreases |queue|
    ensures var r := ProcessAll(st, queue, stamps, mode, password);
            var entries := SuccessEntries(queue, stamps, mode, password);
            && r.state.storage == SaveAllRecent(st.storage, entries)
            && |r.downloads| == |entries|
            && r.state.recent == (if entries == [] then st.recent else GetRecentFiles(r.state.storage))
  {
    if queue != [] {
      var step := ProcessOne(st, queue[0], stamps[0], mode, password);
      ProcessAllHistory(step.state, queue[1..], stamps[1..], mode, password);
      var later := SuccessEntries(queue[1..], stamps[1..], mode, password);
      if Delivered(Process(mode, queue[0].content, password).result) {
        var e := EntryFor(queue[0], stamps[0], mode);
        assert SuccessEntries(queue, stamps, mode, password) == [e] + later;
        assert ([e] + later)[0] == e && ([e] + later)[1..] == later;
        assert SaveAllRecent(st.storage, [e] + later) == SaveAllRecent(step.state.storage, later);
      } else {
        assert SuccessEntries(queue, stamps, mode, password) == later;
      }
    }
  }

  /** The history after a run: unchanged if no file succeeded, otherwise the
      successful files newest first, followed by the older history, cut to ten. */
  lemma RunRecordsOnlySuccesses(st: PageState, stamps: seq<Stamp>)
    requires |stamps| == |st.files| && !Blocked(st)
    ensures var entries := SuccessEntries(st.files, stamps, st.tab, st.password);
            var r := ProcessFiles(st, stamps);
            && |r.downloads| == |entries|
            && (entries == [] ==> r.state.recent == st.recent && r.state.storage == st.storage)
            && (entries != [] ==>
                  r.state.recent == (Reverse(entries) + GetRecentFiles(st.storage))
                                    [..Min(|entries| + |GetRecentFiles(st.storage)|, MaxRecentFiles)])
  {
    var entries := SuccessEntries(st.files, stamps, st.tab, st.password);
    var start := st.(isProcessing := true);
    ProcessAllHistory(start, st.files, stamps, st.tab, st.password);
    var run := ProcessAll(start, st.files, stamps, st.tab, st.password);
    assert ProcessFiles(st, stamps) == BatchOutcome(run.state.(isProcessing := false, progress := 0), run.downloads, run.progressLog);
    if entries != [] {
      SaveAllNewestFirst(st.storage, entries);
    }
  }
}
