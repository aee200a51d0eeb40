/** The file browser's view-model: the list of records on screen, the set of
    selected ids, the folder path, the folder contents created in the
    browser, and the search query. Server replies, dialog answers and
    freshly generated ids are inputs of the operations that use them. */
module DashboardView {
  import opened Wrappers
  import opened Text
  import StorageApi

  datatype Kind = File | Folder

  /** A record of `files`. An absent `serverFilename` or `mimeType` is the
      empty string, and an absent size is 0: the source only ever reads
      them through truthiness tests and `size || 0`. */
  datatype FileRecord = FileRecord(
    id: string, name: string, kind: Kind, size: nat,
    serverFilename: string, mimeType: string)

  predicate UniqueIds(files: seq<FileRecord>) {
    forall i, j :: 0 <= i < j < |files| ==> files[i].id != files[j].id
  }

  /** The ids of all records, as a set. */
  function IdSet(files: seq<FileRecord>): set<string> {
    set f | f in files :: f.id
  }

  // ------------------------------------------------------------- lookup

  /** `files.find(f => f.id === id)`, as the position of the record found. */
  function FindIndex(files: seq<FileRecord>, id: string): (r: Option<nat>)
    ensures r.None? <==> id !in IdSet(files)
    ensures r.Some? ==> r.value < |files| && files[r.value].id == id
    ensures r.Some? ==> forall j :: 0 <= j < r.value ==> files[j].id != id
  {
    if files == [] then None
    else if files[0].id == id then Some(0)
    else
      var rest := FindIndex(files[1..], id);
      assert forall j :: 1 <= j < |files| ==> files[j] == files[1..][j - 1];
      assert files == [files[0]] + files[1..];
      match rest
      case None => None
      case Some(i) => Some(i + 1)
  }

  /** `files.find(f => f.name === text && f.type === 'folder')`. */
  function FindFolder(files: seq<FileRecord>, name: string): (r: Option<nat>)
    ensures r.None? ==> forall j :: 0 <= j < |files| ==> !(files[j].name == name && files[j].kind == Folder)
    ensures r.Some? ==> r.value < |files| && files[r.value].name == name && files[r.value].kind == Folder
    ensures r.Some? ==> forall j :: 0 <= j < r.value ==> !(files[j].name == name && files[j].kind == Folder)
  {
    if files == [] then None
    else if files[0].name == name && files[0].kind == Folder then Some(0)
    else
      assert forall j :: 1 <= j < |files| ==> files[j] == files[1..][j - 1];
      match FindFolder(files[1..], name)
      case None => None
      case Some(i) => Some(i + 1)
  }

  // ------------------------------------------------------------- search

  /** The search test of `renderFiles`: the lower-cased name includes the
      lower-cased query. */
  predicate Matches(f: FileRecord, query: string) {
    Contains(ToLower(f.name), ToLower(query))
  }

  /** The records `renderFiles` shows. */
  function SearchFilter(files: seq<FileRecord>, query: string): (r: seq<FileRecord>)
    ensures |r| <= |files|
    ensures forall f :: f in r <==> f in files && Matches(f, query)
    ensures multiset(r) <= multiset(files)
  {
    if files == [] then []
    else
      assert files == [files[0]] + files[1..];
      (if Matches(files[0], query) then [files[0]] else []) + SearchFilter(files[1..], query)
  }

  /** The filter keeps the original order: filtering a concatenation
      concatenates the filtered parts. */
  lemma {:induction false} SearchFilterAppend(a: seq<FileRecord>, b: seq<FileRecord>, query: string)
    ensures SearchFilter(a + b, query) == SearchFilter(a, query) + SearchFilter(b, query)
  {
    if a == [] {
      assert a + b == b;
    } else {
      assert (a + b)[0] == a[0];
      assert (a + b)[1..] == a[1..] + b;
      SearchFilterAppend(a[1..], b, query);
    }
  }

  /** An empty search box shows every record. */
  lemma {:induction false} EmptyQueryKeepsAll(files: seq<FileRecord>)
    ensures SearchFilter(files, "") == files
  {
    if files != [] {
      ContainsEmpty(ToLower(files[0].name));
      EmptyQueryKeepsAll(files[1..]);
    }
  }

  /** Case does not matter: a record whose name equals the query up to
      ASCII case is always shown. */
  lemma MatchesOwnName(f: FileRecord, query: string)
    requires ToLower(query) == ToLower(f.name)
    ensures Matches(f, query)
  {
    var s := ToLower(f.name);
    assert s[0..|s|] == s;
    assert OccursAt(s, ToLower(query), 0);
  }

  // ----------------------------------------------------------- deletion

  /** `files.filter(f => !ids.includes(f.id))`. */
  function RemoveIds(files: seq<FileRecord>, ids: set<string>): seq<FileRecord> {
    if files == [] then []
    else (if files[0].id in ids then [] else [files[0]]) + RemoveIds(files[1..], ids)
  }

  /** The records kept are exactly those whose id is not removed. */
  lemma {:induction false} RemoveIdsContents(files: seq<FileRecord>, ids: set<string>)
    ensures var r := RemoveIds(files, ids);
      && |r| <= |files|
      && (forall f :: f in r <==> f in files && f.id !in ids)
      && multiset(r) <= multiset(files)
  {
    if files != [] {
      RemoveIdsContents(files[1..], ids);
      assert files == [files[0]] + files[1..];
    }
  }

  /** Deletion keeps the order of what remains. */
  lemma {:induction false} RemoveIdsAppend(a: seq<FileRecord>, b: seq<FileRecord>, ids: set<string>)
    ensures RemoveIds(a + b, ids) == RemoveIds(a, ids) + RemoveIds(b, ids)
  {
    if a == [] {
      assert a + b == b;
    } else {
      assert (a + b)[0] == a[0];
      assert (a + b)[1..] == a[1..] + b;
      RemoveIdsAppend(a[1..], b, ids);
      var head := if a[0].id in ids then [] else [a[0]];
      assert RemoveIds(a + b, ids) == head + RemoveIds(a[1..] + b, ids);
      assert RemoveIds(a, ids) == head + RemoveIds(a[1..], ids);
    }
  }

  /** The ids left after a removal are the old ids minus the removed ones. */
  lemma RemoveIdsIds(files: seq<FileRecord>, ids: set<string>)
    ensures IdSet(RemoveIds(files, ids)) == IdSet(files) - ids
  {
    var r := RemoveIds(files, ids);
    RemoveIdsContents(files, ids);
    forall x | x in IdSet(files) - ids ensures x in IdSet(r) {
      var f :| f in files && f.id == x;
      assert f in r;
    }
  }

  /** Removing ids that no record carries changes nothing. */
  lemma {:induction false} RemoveAbsentIds(files: seq<FileRecord>, ids: set<string>)
    requires IdSet(files) !! ids
    ensures RemoveIds(files, ids) == files
  {
    if files != [] {
      assert files[0] in files;
      assert files == [files[0]] + files[1..];
      RemoveAbsentIds(files[1..], ids);
    }
  }

  /** A removal keeps ids unique. */
  lemma {:induction false} RemoveIdsUniqueIds(files: seq<FileRecord>, ids: set<string>)
    requires UniqueIds(files)
    ensures UniqueIds(RemoveIds(files, ids))
  {
    if files != [] {
      var tail := files[1..];
      assert forall i, j :: 0 <= i < j < |tail| ==> tail[i] == files[i + 1] && tail[j] == files[j + 1];
      RemoveIdsUniqueIds(tail, ids);
      var rest := RemoveIds(tail, ids);
      if files[0].id in ids {
        assert RemoveIds(files, ids) == rest;
      } else {
        RemoveIdsIds(tail, ids);
        forall f | f in tail ensures f.id != files[0].id {
          var k :| 0 <= k < |tail| && tail[k] == f;
          assert files[k + 1] == f;
        }
        assert IdSet([files[0]]) == {files[0].id};
        AppendUniqueIds([files[0]], rest);
        assert RemoveIds(files, ids) == [files[0]] + rest;
      }
    }
  }

  /** The answer a deletion gets for one selected id: a record with a
      server file is deleted on the server and gets the server's answer;
      a folder or local record, or an id with no record, succeeds at once. */
  function DeleteOutcome(files: seq<FileRecord>, id: string, serverDelete: string -> bool): bool {
    match FindIndex(files, id)
    case None => true
    case Some(i) => files[i].serverFilename == "" || serverDelete(files[i].serverFilename)
  }

  /** The selected ids whose deletion succeeds. */
  function Succeeding(files: seq<FileRecord>, ids: set<string>, serverDelete: string -> bool): (r: set<string>)
    ensures r <= ids
  {
    set id | id in ids && DeleteOutcome(files, id, serverDelete)
  }

  lemma SucceedingStep(files: seq<FileRecord>, done: set<string>, id: string, serverDelete: string -> bool)
    requires id !in done
    ensures |Succeeding(files, done + {id}, serverDelete)|
      == |Succeeding(files, done, serverDelete)| + (if DeleteOutcome(files, id, serverDelete) then 1 else 0)
  {
    var before := Succeeding(files, done, serverDelete);
    if DeleteOutcome(files, id, serverDelete) {
      assert Succeeding(files, done + {id}, serverDelete) == before + {id};
    } else {
      assert Succeeding(files, done + {id}, serverDelete) == before;
    }
  }

  /** The `Promise.all` of `handleDelete` as a sequential fold: one answer
      per selected id, counted as successes and failures. */
  method CountOutcomes(files: seq<FileRecord>, ids: set<string>, serverDelete: string -> bool) returns (succeeded: nat, failed: nat)
    ensures succeeded == |Succeeding(files, ids, serverDelete)|
    ensures succeeded + failed == |ids|
  {
    succeeded, failed := 0, 0;
    var pending := ids;
    ghost var done: set<string> := {};
    while pending != {}
      invariant pending + done == ids && pending !! done
      invariant succeeded == |Succeeding(files, done, serverDelete)|
      invariant succeeded + failed == |done|
      decreases |pending|
    {
      var id :| id in pending;
      SucceedingStep(files, done, id, serverDelete);
      if DeleteOutcome(files, id, serverDelete) {
        succeeded := succeeded + 1;
      } else {
        failed := failed + 1;
      }
      pending := pending - {id};
      done := done + {id};
    }
  }

  /** A selection of folders and other records that never reached the
      server deletes without fail. */
  lemma LocalSelectionSucceeds(files: seq<FileRecord>, ids: set<string>, serverDelete: string -> bool)
    requires forall j :: 0 <= j < |files| && files[j].id in ids ==> files[j].serverFilename == ""
    ensures Succeeding(files, ids, serverDelete) == ids
  {
    forall id | id in ids ensures DeleteOutcome(files, id, serverDelete) {
      match FindIndex(files, id)
      case None =>
      case Some(i) => assert files[i].id in ids;
    }
  }

  // ------------------------------------------------------------- rename

  /** `handleRename` goes ahead when the record is found and the answer to
      the prompt is present, non-blank and different from the old name. */
  predicate RenameApplies(files: seq<FileRecord>, id: string, newName: Option<string>) {
    match FindIndex(files, id)
    case None => false
    case Some(i) => newName.Some? && Trim(newName.value) != [] && newName.value != files[i].name
  }

  function Renamed(files: seq<FileRecord>, id: string, newName: Option<string>): (r: seq<FileRecord>)
    ensures |r| == |files|
    ensures !RenameApplies(files, id, newName) ==> r == files
    ensures RenameApplies(files, id, newName) ==>
      var i := FindIndex(files, id).value;
      && r[i] == files[i].(name := Trim(newName.value))
      && Trim(r[i].name) != []
      && forall j :: 0 <= j < |files| && j != i ==> r[j] == files[j]
  {
    if RenameApplies(files, id, newName) then
      var i := FindIndex(files, id).value;
      TrimIdempotent(newName.value);
      files[i := files[i].(name := Trim(newName.value))]
    else files
  }

  /** A rename keeps every id, so the selection still refers to it. */
  lemma RenameKeepsIds(files: seq<FileRecord>, id: string, newName: Option<string>)
    ensures IdSet(Renamed(files, id, newName)) == IdSet(files)
  {
    if RenameApplies(files, id, newName) {
      var i := FindIndex(files, id).value;
      SameIds(files, files[i := files[i].(name := Trim(newName.value))]);
    }
  }

  /** Two lists with the same id at every position have the same ids. */
  lemma SameIds(a: seq<FileRecord>, b: seq<FileRecord>)
    requires |a| == |b| && forall k :: 0 <= k < |a| ==> a[k].id == b[k].id
    ensures IdSet(a) == IdSet(b)
  {
    forall x | x in IdSet(a) ensures x in IdSet(b) {
      var f :| f in a && f.id == x;
      var k :| 0 <= k < |a| && a[k] == f;
      assert b[k] in b;
    }
    forall x | x in IdSet(b) ensures x in IdSet(a) {
      var f :| f in b && f.id == x;
      var k :| 0 <= k < |b| && b[k] == f;
      assert a[k] in a;
    }
  }

  /** Two lists with unique ids and no id in common have unique ids together. */
  lemma AppendUniqueIds(a: seq<FileRecord>, b: seq<FileRecord>)
    requires UniqueIds(a) && UniqueIds(b) && IdSet(a) !! IdSet(b)
    ensures UniqueIds(a + b)
  {
    var r := a + b;
    forall i, j | 0 <= i < j < |r| ensures r[i].id != r[j].id {
      if i < |a| && j >= |a| {
        assert r[i] == a[i] && a[i] in a && a[i].id in IdSet(a);
        assert r[j] == b[j - |a|] && b[j - |a|] in b && b[j - |a|].id in IdSet(b);
      } else if i >= |a| {
        assert r[i] == b[i - |a|] && r[j] == b[j - |a|];
      } else {
        assert r[i] == a[i] && r[j] == a[j];
      }
    }
  }

  /** A rename keeps ids unique. */
  lemma RenamedUniqueIds(files: seq<FileRecord>, id: string, newName: Option<string>)
    requires UniqueIds(files)
    ensures UniqueIds(Renamed(files, id, newName))
  {
    var r := Renamed(files, id, newName);
    if RenameApplies(files, id, newName) {
      var i := FindIndex(files, id).value;
      assert forall k :: 0 <= k < |r| ==> r[k].id == files[k].id;
    }
  }

  // ------------------------------------------------------------- server

  /** The records `loadFilesFromServer` builds from the `/files` reply; the
      `k`-th record gets the id `newId(k)`. */
  function FromServer(entries: seq<StorageApi.FileEntry>, newId: nat -> string): (r: seq<FileRecord>)
    ensures |r| == |entries|
    ensures forall k :: 0 <= k < |entries| ==>
      && r[k].id == newId(k) && r[k].name == entries[k].name && r[k].kind == File
      && r[k].size == entries[k].size
      && r[k].serverFilename == (if entries[k].key != "" then entries[k].key else entries[k].name)
  {
    seq(|entries|, k requires 0 <= k < |entries| =>
      var e := entries[k];
      FileRecord(newId(k), e.name, File, e.size, if e.key != "" then e.key else e.name, e.contentType))
  }

  /** Each record loaded from a `/files` reply is named by the last segment
      of the server file it refers to. */
  lemma LoadedNamesAreLastSegments(entries: seq<StorageApi.FileEntry>, objects: map<string, StorageApi.S3Object>, newId: nat -> string)
    requires forall e :: e in entries ==> e.key in objects && e == StorageApi.Entry(e.key, objects[e.key])
    ensures forall f :: f in FromServer(entries, newId) ==> f.name == LastSegment(f.serverFilename)
  {
    var r := FromServer(entries, newId);
    forall f | f in r ensures f.name == LastSegment(f.serverFilename) {
      var k :| 0 <= k < |r| && r[k] == f;
      assert entries[k] in entries;
    }
  }

  /** Distinct fresh ids give distinct record ids. */
  lemma FromServerUniqueIds(entries: seq<StorageApi.FileEntry>, newId: nat -> string)
    requires forall a: nat, b: nat :: a != b ==> newId(a) != newId(b)
    ensures UniqueIds(FromServer(entries, newId))
  {
  }

  /** What `loadFilesFromServer` leaves in `files`: the reply's records, or
      none when the request failed. */
  function Loaded(reply: Option<seq<StorageApi.FileEntry>>, newId: nat -> string): (r: seq<FileRecord>)
    ensures reply.None? ==> r == []
    ensures reply.Some? ==> |r| == |reply.value|
  {
    match reply
    case None => []
    case Some(entries) => FromServer(entries, newId)
  }

  /** A file chosen for upload, with the answer its upload got. */
  datatype UploadAttempt = UploadAttempt(name: string, size: nat, mimeType: string, ok: bool)

  /** The record `uploadFilesToServer` makes for a file the server took. */
  function UploadedRecord(a: UploadAttempt, id: string): FileRecord {
    FileRecord(id, a.name, File, a.size, a.name, a.mimeType)
  }

  /** The records `uploadFilesToServer` appends, in the order of the chosen
      files: one per successful upload, named after the local file. */
  function UploadedRecords(attempts: seq<UploadAttempt>, newId: nat -> string): (r: seq<FileRecord>)
    ensures |r| <= |attempts|
    ensures forall f :: f in r ==> f.kind == File && f.serverFilename == f.name
  {
    if attempts == [] then []
    else
      var n := |attempts| - 1;
      var a := attempts[n];
      UploadedRecords(attempts[..n], newId) + (if a.ok then [UploadedRecord(a, newId(n))] else [])
  }

  /** Every successful upload has its record among those appended. */
  lemma {:induction false} UploadedRecordsContents(attempts: seq<UploadAttempt>, newId: nat -> string)
    ensures forall k :: 0 <= k < |attempts| && attempts[k].ok ==>
      UploadedRecord(attempts[k], newId(k)) in UploadedRecords(attempts, newId)
  {
    if attempts != [] {
      var n := |attempts| - 1;
      UploadedRecordsContents(attempts[..n], newId);
      assert forall k :: 0 <= k < n ==> attempts[k] == attempts[..n][k];
    }
  }

  /** One more chosen file appends its record when its upload succeeded. */
  lemma UploadStep(attempts: seq<UploadAttempt>, i: nat, newId: nat -> string)
    requires i < |attempts|
    ensures UploadedRecords(attempts[..i + 1], newId)
      == UploadedRecords(attempts[..i], newId) + (if attempts[i].ok then [UploadedRecord(attempts[i], newId(i))] else [])
    ensures CountOk(attempts[..i + 1]) == CountOk(attempts[..i]) + (if attempts[i].ok then 1 else 0)
  {
    assert attempts[..i + 1][..i] == attempts[..i];
  }

  /** The number of uploads that succeeded. */
  function CountOk(attempts: seq<UploadAttempt>): (n: nat)
    ensures n <= |attempts|
    ensures n == |attempts| <==> forall k :: 0 <= k < |attempts| ==> attempts[k].ok
  {
    if attempts == [] then 0
    else
      var m := |attempts| - 1;
      assert forall k :: 0 <= k < m ==> attempts[k] == attempts[..m][k];
      CountOk(attempts[..m]) + (if attempts[m].ok then 1 else 0)
  }

  lemma {:induction false} UploadedRecordsCount(attempts: seq<UploadAttempt>, newId: nat -> string)
    ensures |UploadedRecords(attempts, newId)| == CountOk(attempts)
  {
    if attempts != [] {
      UploadedRecordsCount(attempts[..|attempts| - 1], newId);
    }
  }

  /** The `k`-th chosen file's record carries the id `newId(k)`. */
  lemma {:induction false} UploadedRecordsIds(attempts: seq<UploadAttempt>, newId: nat -> string)
    ensures forall f :: f in UploadedRecords(attempts, newId) ==> exists k: nat :: k < |attempts| && f.id == newId(k)
  {
    if attempts != [] {
      var n := |attempts| - 1;
      UploadedRecordsIds(attempts[..n], newId);
    }
  }

  /** Distinct fresh ids give the uploaded records distinct ids. */
  lemma {:induction false} UploadedRecordsUniqueIds(attempts: seq<UploadAttempt>, newId: nat -> string)
    requires forall a: nat, b: nat :: a != b ==> newId(a) != newId(b)
    ensures UniqueIds(UploadedRecords(attempts, newId))
  {
    if attempts != [] {
      var n := |attempts| - 1;
      var prev := UploadedRecords(attempts[..n], newId);
      UploadedRecordsUniqueIds(attempts[..n], newId);
      if attempts[n].ok {
        UploadedRecordsIds(attempts[..n], newId);
        var rec := UploadedRecord(attempts[n], newId(n));
        forall f | f in prev ensures f.id != newId(n) {
          var k: nat :| k < n && f.id == newId(k);
        }
        assert IdSet([rec]) == {newId(n)};
        AppendUniqueIds(prev, [rec]);
      }
    }
  }

  /** The id source gives distinct ids, none of them already on screen. */
  ghost predicate FreshIds(newId: nat -> string, files: seq<FileRecord>) {
    && (forall a: nat, b: nat :: a != b ==> newId(a) != newId(b))
    && (forall k: nat :: newId(k) !in IdSet(files))
  }

  /** Uploading with fresh ids keeps ids unique. */
  lemma UploadKeepsUniqueIds(files: seq<FileRecord>, attempts: seq<UploadAttempt>, newId: nat -> string)
    requires UniqueIds(files) && FreshIds(newId, files)
    ensures UniqueIds(files + UploadedRecords(attempts, newId))
  {
    var added := UploadedRecords(attempts, newId);
    UploadedRecordsUniqueIds(attempts, newId);
    UploadedRecordsIds(attempts, newId);
    forall x | x in IdSet(added) ensures x !in IdSet(files) {
      var f :| f in added && f.id == x;
      var k: nat :| k < |attempts| && f.id == newId(k);
    }
    AppendUniqueIds(files, added);
  }

  // --------------------------------------------------------- misc, pure

  /** `updateStorageUsage`: the sum of `size || 0` over the records. */
  function TotalSize(files: seq<FileRecord>): nat {
    if files == [] then 0 else files[0].size + TotalSize(files[1..])
  }

  lemma {:induction false} TotalSizeAppend(a: seq<FileRecord>, b: seq<FileRecord>)
    ensures TotalSize(a + b) == TotalSize(a) + TotalSize(b)
  {
    if a == [] {
      assert a + b == b;
    } else {
      assert (a + b)[1..] == a[1..] + b;
      TotalSizeAppend(a[1..], b);
    }
  }

  /** Deleting records never increases the total shown. */
  lemma {:induction false} RemoveIdsShrinksTotal(files: seq<FileRecord>, ids: set<string>)
    ensures TotalSize(RemoveIds(files, ids)) <= TotalSize(files)
  {
    if files != [] {
      var rest := RemoveIds(files[1..], ids);
      RemoveIdsShrinksTotal(files[1..], ids);
      assert TotalSize(files) == files[0].size + TotalSize(files[1..]);
      if files[0].id in ids {
        assert RemoveIds(files, ids) == rest;
      } else {
        var r := [files[0]] + rest;
        assert RemoveIds(files, ids) == r;
        assert r[1..] == rest;
        assert TotalSize(r) == files[0].size + TotalSize(rest);
      }
    }
  }

  const Gray := "#9ca3af"
  const Green := "#10b981"
  const Red := "#ef4444"
  const Blue := "#3b82f6"
  const Purple := "#8b5cf6"

  /** `getFileIconColor`: the first matching rule wins. */
  function IconColor(mimeType: string): (r: string)
    ensures r in {Gray, Green, Red, Blue, Purple}
    ensures mimeType == "" ==> r == Gray
    ensures StartsWith(mimeType, "image/") ==> r == Green
    ensures r == Red ==> Contains(mimeType, "pdf")
    ensures r == Purple ==> StartsWith(mimeType, "text/") && !Contains(mimeType, "pdf")
  {
    if mimeType == "" then Gray
    else if StartsWith(mimeType, "image/") then Green
    else if Contains(mimeType, "pdf") then Red
    else if Contains(mimeType, "document") || Contains(mimeType, "word") then Blue
    else if StartsWith(mimeType, "text/") then Purple
    else Gray
  }

  /** `toggleFileSelection` on the selection set. */
  function Toggled(s: set<string>, id: string): (r: set<string>)
    ensures id in r <==> id !in s
    ensures forall x :: x != id ==> (x in r <==> x in s)
  {
    if id in s then s - {id} else s + {id}
  }

  lemma ToggleTwice(s: set<string>, id: string)
    ensures Toggled(Toggled(s, id), id) == s
  {
  }

  function Min(a: nat, b: nat): nat {
    if a <= b then a else b
  }

  // -------------------------------------------------------------- state

  class Dashboard {
    var files: seq<FileRecord>
    var selectedFiles: set<string>
    var currentPath: seq<string>
    var folders: map<string, seq<FileRecord>>
    var searchQuery: string

    constructor ()
      ensures files == [] && selectedFiles == {} && currentPath == []
      ensures folders == map[] && searchQuery == ""
    {
      files := [];
      selectedFiles := {};
      currentPath := [];
      folders := map[];
      searchQuery := "";
    }

    // selection

    method ToggleFileSelection(id: string)
      modifies this`selectedFiles
      ensures selectedFiles == Toggled(old(selectedFiles), id)
    {
      if id in selectedFiles {
        selectedFiles := selectedFiles - {id};
      } else {
        selectedFiles := selectedFiles + {id};
      }
    }

    method SelectSingleFile(id: string)
      modifies this`selectedFiles
      ensures selectedFiles == {id}
    {
      selectedFiles := {};
      selectedFiles := selectedFiles + {id};
    }

    /** Ctrl+A: adds the id of every record on screen. */
    method SelectAll()
      modifies this`selectedFiles
      ensures selectedFiles == old(selectedFiles) + IdSet(files)
    {
      for i := 0 to |files|
        invariant selectedFiles == old(selectedFiles) + IdSet(files[..i])
      {
        assert files[..i + 1] == files[..i] + [files[i]];
        selectedFiles := selectedFiles + {files[i].id};
      }
      assert files[..|files|] == files;
    }

    /** Escape. */
    method ClearSelection()
      modifies this`selectedFiles
      ensures selectedFiles == {}
    {
      selectedFiles := {};
    }

    // search

    /** `handleSearchInput` followed by the debounced `renderFiles`. */
    method Search(query: string) returns (shown: seq<FileRecord>)
      modifies this`searchQuery
      ensures searchQuery == query
      ensures shown == SearchFilter(files, query)
      ensures forall f :: f in shown <==> f in files && Matches(f, query)
      ensures query == "" ==> shown == files
    {
      searchQuery := query;
      shown := SearchFilter(files, query);
      if query == "" {
        EmptyQueryKeepsAll(files);
      }
    }

    // folders and rename

    method CreateFolder(name: string, freshId: string)
      modifies this`files, this`folders
      ensures files == old(files) + [FileRecord(freshId, name, Folder, 0, "", "")]
      ensures folders == old(folders)[name := []]
      ensures UniqueIds(old(files)) && freshId !in IdSet(old(files)) ==> UniqueIds(files)
    {
      files := files + [FileRecord(freshId, name, Folder, 0, "", "")];
      folders := folders[name := []];
      assert forall i :: 0 <= i < |files| - 1 ==> files[i].id in IdSet(old(files));
    }

    /** `handleNewFolder`: a cancelled or blank prompt does nothing; any
      other answer creates a folder under its trimmed name. */
    method HandleNewFolder(answer: Option<string>, freshId: string)
      modifies this`files, this`folders
      ensures answer.None? || Trim(answer.value) == [] ==> files == old(files) && folders == old(folders)
      ensures answer.Some? && Trim(answer.value) != [] ==>
        && files == old(files) + [FileRecord(freshId, Trim(answer.value), Folder, 0, "", "")]
        && folders == old(folders)[Trim(answer.value) := []]
    {
      if answer.Some? && Trim(answer.value) != [] {
        CreateFolder(Trim(answer.value), freshId);
      }
    }

    /** `handleRename`, with the answer to the prompt as input. */
    method HandleRename(newName: Option<string>)
      modifies this`files
      ensures |selectedFiles| != 1 ==> files == old(files)
      ensures |selectedFiles| == 1 ==> files == Renamed(old(files), TheOne(selectedFiles), newName)
      ensures UniqueIds(old(files)) ==> UniqueIds(files)
    {
      if |selectedFiles| != 1 {
        return;
      }
      var id :| id in selectedFiles;
      OnlyMember(selectedFiles, id);
      if UniqueIds(files) {
        RenamedUniqueIds(files, id, newName);
      }
      files := Renamed(files, id, newName);
    }

    // deletion

    /** `deleteFileById`: after confirmation, removes every record with this
      id and deselects it, unless the server refused to delete its file. */
    method DeleteFileById(id: string, confirmed: bool, serverDelete: string -> bool) returns (deleted: bool)
      modifies this`files, this`selectedFiles
      ensures deleted <==> id in IdSet(old(files)) && confirmed && DeleteOutcome(old(files), id, serverDelete)
      ensures deleted ==> files == RemoveIds(old(files), {id}) && selectedFiles == old(selectedFiles) - {id}
      ensures !deleted ==> files == old(files) && selectedFiles == old(selectedFiles)
      ensures UniqueIds(old(files)) ==> UniqueIds(files)
      ensures TotalSize(files) <= TotalSize(old(files))
    {
      var found := FindIndex(files, id);
      if found.None? || !confirmed {
        return false;
      }
      var file := files[found.value];
      if file.serverFilename != "" && !serverDelete(file.serverFilename) {
        return false;
      }
      if UniqueIds(files) {
        RemoveIdsUniqueIds(files, {id});
      }
      RemoveIdsShrinksTotal(files, {id});
      files := RemoveIds(files, {id});
      selectedFiles := selectedFiles - {id};
      deleted := true;
    }

    /** `handleDelete`: asks the server about every selected id and, if at
      least one deletion succeeded, drops all selected records and clears
      the selection. */
    method HandleDelete(confirmed: bool, serverDelete: string -> bool) returns (succeeded: nat, failed: nat)
      modifies this`files, this`selectedFiles
      ensures old(selectedFiles) == {} || !confirmed ==> succeeded == 0 && failed == 0
      ensures old(selectedFiles) != {} && confirmed ==>
        && succeeded == |Succeeding(old(files), old(selectedFiles), serverDelete)|
        && succeeded + failed == |old(selectedFiles)|
      ensures succeeded > 0 ==> files == RemoveIds(old(files), old(selectedFiles)) && selectedFiles == {}
      ensures succeeded == 0 ==> files == old(files) && selectedFiles == old(selectedFiles)
      ensures UniqueIds(old(files)) ==> UniqueIds(files)
      ensures TotalSize(files) <= TotalSize(old(files))
      ensures old(selectedFiles) !! IdSet(old(files)) ==> files == old(files)
    {
      succeeded, failed := 0, 0;
      if selectedFiles == {} || !confirmed {
        return;
      }
      succeeded, failed := CountOutcomes(files, selectedFiles, serverDelete);
      if succeeded > 0 {
        if UniqueIds(files) {
          RemoveIdsUniqueIds(files, selectedFiles);
        }
        if selectedFiles !! IdSet(files) {
          RemoveAbsentIds(files, selectedFiles);
        }
        RemoveIdsShrinksTotal(files, selectedFiles);
        files := RemoveIds(files, selectedFiles);
        selectedFiles := {};
      }
    }

    // loading, uploading

    method LoadFilesFromServer(reply: Option<seq<StorageApi.FileEntry>>, newId: nat -> string)
      modifies this`files
      ensures files == Loaded(reply, newId)
    {
      files := Loaded(reply, newId);
    }

    /** `handleFiles`: uploads the chosen files and appends a record for each
      one the server accepted; returns how many succeeded and failed. */
    method UploadFiles(attempts: seq<UploadAttempt>, newId: nat -> string) returns (successful: nat, failedCount: nat)
      modifies this`files
      ensures files == old(files) + UploadedRecords(attempts, newId)
      ensures successful == CountOk(attempts) && successful + failedCount == |attempts|
      ensures TotalSize(files) >= TotalSize(old(files))
      ensures UniqueIds(old(files)) && FreshIds(newId, old(files)) ==> UniqueIds(files)
    {
      successful, failedCount := 0, 0;
      for i := 0 to |attempts|
        invariant files == old(files) + UploadedRecords(attempts[..i], newId)
        invariant successful == CountOk(attempts[..i]) && successful + failedCount == i
      {
        UploadStep(attempts, i, newId);
        if attempts[i].ok {
          files := files + [UploadedRecord(attempts[i], newId(i))];
          successful := successful + 1;
        } else {
          failedCount := failedCount + 1;
        }
      }
      assert attempts[..|attempts|] == attempts;
      TotalSizeAppend(old(files), UploadedRecords(attempts, newId));
      if UniqueIds(old(files)) && FreshIds(newId, old(files)) {
        UploadKeepsUniqueIds(old(files), attempts, newId);
      }
    }

    /** `updateStorageUsage`. */
    function StorageUsage(): (total: nat)
      reads this
      ensures files == [] ==> total == 0
    {
      TotalSize(files)
    }

    // navigation

    method NavigateToRoot(reply: Option<seq<StorageApi.FileEntry>>, newId: nat -> string)
      modifies this`currentPath, this`files
      ensures currentPath == [] && files == Loaded(reply, newId)
    {
      currentPath := [];
      LoadFilesFromServer(reply, newId);
    }

    method NavigateBack(reply: Option<seq<StorageApi.FileEntry>>, newId: nat -> string)
      modifies this`currentPath, this`files
      ensures old(currentPath) == [] ==> currentPath == [] && files == old(files)
      ensures old(currentPath) != [] ==>
        && currentPath == old(currentPath)[..|old(currentPath)| - 1]
        && files == Loaded(reply, newId)
    {
      if |currentPath| > 0 {
        currentPath := currentPath[..|currentPath| - 1];
        LoadFilesFromServer(reply, newId);
      }
    }

    /** `openFolder` and `loadFolderContents`: the folder's name goes on the
      path and its stored contents, or nothing, go on screen. */
    method OpenFolder(name: string)
      modifies this`currentPath, this`files
      ensures currentPath == old(currentPath) + [name]
      ensures files == if name in folders then folders[name] else []
    {
      currentPath := currentPath + [name];
      files := if name in folders then folders[name] else [];
    }

    /** A breadcrumb link: keeps the path up to and including `index`. */
    method JumpToBreadcrumb(index: nat, reply: Option<seq<StorageApi.FileEntry>>, newId: nat -> string)
      modifies this`currentPath, this`files
      ensures currentPath == old(currentPath)[..Min(index + 1, |old(currentPath)|)]
      ensures index < |old(currentPath)| ==> |currentPath| == index + 1 && currentPath[index] == old(currentPath)[index]
      ensures files == Loaded(reply, newId)
    {
      currentPath := currentPath[..Min(index + 1, |currentPath|)];
      LoadFilesFromServer(reply, newId);
    }

    /** A sidebar link, by its text. */
    method HandleNavigation(text: string, reply: Option<seq<StorageApi.FileEntry>>, newId: nat -> string)
      modifies this`currentPath, this`files
      ensures text == "All Files" ==> currentPath == [] && files == Loaded(reply, newId)
      ensures text == "Back" && old(currentPath) != [] ==>
        currentPath == old(currentPath)[..|old(currentPath)| - 1] && files == Loaded(reply, newId)
      ensures text == "Back" && old(currentPath) == [] ==> currentPath == [] && files == old(files)
      ensures text != "All Files" && text != "Back" ==>
        if FindFolder(old(files), text).Some? then
          currentPath == old(currentPath) + [text] && files == (if text in folders then folders[text] else [])
        else currentPath == old(currentPath) && files == old(files)
    {
      if text == "All Files" {
        NavigateToRoot(reply, newId);
      } else if text == "Back" {
        NavigateBack(reply, newId);
      } else if FindFolder(files, text).Some? {
        OpenFolder(text);
      }
    }
  }

  /** The element of a one-element set. */
  ghost function TheOne(s: set<string>): string
    requires |s| == 1
  {
    var x :| x in s; x
  }

  lemma OnlyMember(s: set<string>, x: string)
    requires |s| == 1 && x in s
    ensures TheOne(s) == x
  {
    var rest := s - {x};
    assert s == rest + {x};
    assert |rest| == 0;
    assert TheOne(s) in s;
  }
}
