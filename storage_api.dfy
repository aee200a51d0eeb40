/** The storage rules of the Flask back end: the S3 bucket is a `Bucket`
    object (a map from key to object, plus the order in which the bucket
    lists its keys), and each route is a function or a method over it. A
    server started without AWS credentials has no client (`s3 = None`),
    which is a null `Bucket?` here. */
module StorageApi {
  import opened Wrappers
  import opened Text

  type Metadata = map<string, string>

  /** One stored object: its size in bytes, its content type and its user
      metadata. */
  datatype S3Object = S3Object(size: nat, contentType: string, metadata: Metadata)

  /** One entry of the `/files` reply. */
  datatype FileEntry = FileEntry(
    name: string, key: string, size: nat, kind: string, folder: string,
    isTrashed: string, ownerEmail: string, ownerName: string, pin: bool,
    contentType: string)

  /** The JSON body of a reply: `{"message": …}`, `{"error": …}`,
      `{"token": …}`, the upload acknowledgement, the file list and the
      storage total. `note` is the extra `message` of the replies given when
      the server has no S3 client. */
  datatype Body =
    | Message(text: string)
    | Error(text: string)
    | Token(token: string)
    | Uploaded(message: string, metadata: Metadata)
    | Files(files: seq<FileEntry>, note: Option<string>)
    | Usage(totalBytes: nat, note: Option<string>)

  datatype Reply = Reply(status: nat, body: Body)

  const NoClient := "S3 service not available. Please configure AWS credentials."

  /** Python's `d.get(key, default)`. */
  function Get(m: map<string, string>, key: string, default: string): string {
    if key in m then m[key] else default
  }

  /** Python's truth value of an optional string: present and non-empty. */
  predicate Truthy(v: Option<string>) {
    v.Some? && v.value != ""
  }

  predicate Distinct(s: seq<string>) {
    forall i, j :: 0 <= i < j < |s| ==> s[i] != s[j]
  }

  /** `s` with every occurrence of `key` taken out, the rest in order. */
  function Without(s: seq<string>, key: string): (r: seq<string>)
    ensures forall x :: x in r <==> x in s && x != key
    ensures Distinct(s) ==> Distinct(r)
    ensures key !in s ==> r == s
  {
    if s == [] then []
    else if s[0] == key then Without(s[1..], key)
    else
      var rest := Without(s[1..], key);
      assert Distinct(s) ==> s[0] !in s[1..];
      [s[0]] + rest
  }

  /** `sum(obj['Size'] for obj in ...)` over the objects listed under `keys`. */
  function SumSizes(keys: seq<string>, objects: map<string, S3Object>): nat {
    if keys == [] then 0
    else (if keys[0] in objects then objects[keys[0]].size else 0) + SumSizes(keys[1..], objects)
  }

  /** `a` comes before `b` in the order `list_objects_v2` lists keys in:
      ascending binary order of their UTF-8 encodings, which for Unicode
      scalar values is the lexicographic order of their code points. */
  predicate KeyLess(a: string, b: string) {
    if a == [] then b != []
    else if b == [] then false
    else if a[0] != b[0] then a[0] < b[0]
    else KeyLess(a[1..], b[1..])
  }

  lemma {:induction false} KeyLessIrreflexive(a: string)
    ensures !KeyLess(a, a)
  {
    if a != [] {
      KeyLessIrreflexive(a[1..]);
    }
  }

  lemma {:induction false} KeyLessTransitive(a: string, b: string, c: string)
    requires KeyLess(a, b) && KeyLess(b, c)
    ensures KeyLess(a, c)
  {
    if a != [] && a[0] == b[0] && b[0] == c[0] {
      KeyLessTransitive(a[1..], b[1..], c[1..]);
    }
  }

  lemma {:induction false} KeyLessTotal(a: string, b: string)
    requires a != b
    ensures KeyLess(a, b) || KeyLess(b, a)
  {
    if a != [] && b != [] && a[0] == b[0] {
      assert a == [a[0]] + a[1..] && b == [b[0]] + b[1..];
      KeyLessTotal(a[1..], b[1..]);
    }
  }

  /** The keys in strictly ascending listing order. */
  predicate Sorted(s: seq<string>) {
    forall i, j :: 0 <= i < j < |s| ==> KeyLess(s[i], s[j])
  }

  lemma SortedDistinct(s: seq<string>)
    requires Sorted(s)
    ensures Distinct(s)
  {
    forall i, j | 0 <= i < j < |s| ensures s[i] != s[j] {
      KeyLessIrreflexive(s[i]);
    }
  }

  /** `keys` with `key` put in its place in listing order. */
  function Insert(keys: seq<string>, key: string): (r: seq<string>)
    ensures forall x :: x in r <==> x in keys || x == key
    ensures |r| == |keys| + 1
  {
    if keys == [] then [key]
    else if KeyLess(key, keys[0]) then [key] + keys
    else [keys[0]] + Insert(keys[1..], key)
  }

  /** A key that lists before every key of a sorted list can go in front. */
  lemma SortedCons(key: string, keys: seq<string>)
    requires Sorted(keys)
    requires forall x :: x in keys ==> KeyLess(key, x)
    ensures Sorted([key] + keys)
  {
    var r := [key] + keys;
    forall i, j | 0 <= i < j < |r| ensures KeyLess(r[i], r[j]) {
      assert r[j] == keys[j - 1];
      if i > 0 {
        assert r[i] == keys[i - 1];
      }
    }
  }

  /** Inserting a new key keeps the keys sorted. */
  lemma {:induction false} InsertSorted(keys: seq<string>, key: string)
    requires Sorted(keys) && key !in keys
    ensures Sorted(Insert(keys, key))
  {
    if keys == [] {
    } else if KeyLess(key, keys[0]) {
      forall x | x in keys ensures KeyLess(key, x) {
        if x != keys[0] {
          var m :| 0 <= m < |keys| && keys[m] == x;
          KeyLessTransitive(key, keys[0], x);
        }
      }
      SortedCons(key, keys);
    } else {
      assert key != keys[0];
      KeyLessTotal(key, keys[0]);
      var tail := keys[1..];
      assert Sorted(tail);
      InsertSorted(tail, key);
      forall x | x in Insert(tail, key) ensures KeyLess(keys[0], x) {
        if x != key {
          var m :| 0 <= m < |tail| && tail[m] == x;
          assert keys[m + 1] == x;
        }
      }
      SortedCons(keys[0], Insert(tail, key));
    }
  }

  /** Taking a newly inserted key out again gives the old keys back. */
  lemma {:induction false} WithoutInsert(keys: seq<string>, key: string)
    requires key !in keys
    ensures Without(Insert(keys, key), key) == keys
  {
    if keys == [] {
      assert Insert(keys, key) == [key];
    } else if KeyLess(key, keys[0]) {
      assert Insert(keys, key) == [key] + keys;
      assert ([key] + keys)[1..] == keys;
    } else {
      var t := Insert(keys[1..], key);
      assert Insert(keys, key) == [keys[0]] + t;
      assert ([keys[0]] + t)[1..] == t;
      WithoutInsert(keys[1..], key);
      assert keys == [keys[0]] + keys[1..];
    }
  }

  /** Taking a key out keeps the others sorted. */
  lemma {:induction false} WithoutSorted(keys: seq<string>, key: string)
    requires Sorted(keys)
    ensures Sorted(Without(keys, key))
  {
    if keys != [] {
      var tail := keys[1..];
      assert Sorted(tail);
      WithoutSorted(tail, key);
      if keys[0] != key {
        forall x | x in Without(tail, key) ensures KeyLess(keys[0], x) {
          var m :| 0 <= m < |tail| && tail[m] == x;
          assert keys[m + 1] == x;
        }
        SortedCons(keys[0], Without(tail, key));
      }
    }
  }

  /** The bucket. `order` holds every key exactly once, in the ascending
      order in which `list_objects_v2` returns them. */
  class Bucket {
    var objects: map<string, S3Object>
    var order: seq<string>

    ghost predicate Valid()
      reads this
    {
      && Sorted(order)
      && forall k :: k in objects <==> k in order
    }

    /** The bytes the bucket holds. */
    function TotalBytes(): nat
      reads this
    {
      SumSizes(order, objects)
    }

    /** `upload_fileobj` of an object under a new key. */
    method Put(key: string, obj: S3Object)
      requires Valid() && key !in objects
      modifies this
      ensures Valid()
      ensures objects == old(objects)[key := obj] && order == Insert(old(order), key)
      ensures TotalBytes() == old(TotalBytes()) + obj.size
    {
      InsertSorted(order, key);
      SumSizesAfterPut(order, objects, key, obj);
      objects := objects[key := obj];
      order := Insert(order, key);
    }

    /** `delete_object` of a stored key. */
    method Remove(key: string)
      requires Valid() && key in objects
      modifies this
      ensures Valid()
      ensures objects == old(objects) - {key} && order == Without(old(order), key)
      ensures TotalBytes() == old(TotalBytes()) - old(objects[key].size)
    {
      SortedDistinct(order);
      WithoutSorted(order, key);
      SumSizesAfterRemove(order, objects, key);
      objects := objects - {key};
      order := Without(order, key);
    }

    /** `copy_object` onto itself with `MetadataDirective='REPLACE'`. */
    method ReplaceMetadata(key: string, metadata: Metadata)
      requires Valid() && key in objects
      modifies this
      ensures Valid()
      ensures objects == old(objects)[key := old(objects[key]).(metadata := metadata)]
      ensures order == old(order)
    {
      objects := objects[key := objects[key].(metadata := metadata)];
    }
  }

  /** Only the sizes stored under `keys` enter the sum. */
  lemma {:induction false} SumSizesFrame(keys: seq<string>, m1: map<string, S3Object>, m2: map<string, S3Object>)
    requires forall k :: k in keys ==> (k in m1 <==> k in m2) && (k in m1 ==> m1[k].size == m2[k].size)
    ensures SumSizes(keys, m1) == SumSizes(keys, m2)
  {
    if keys != [] {
      SumSizesFrame(keys[1..], m1, m2);
    }
  }

  /** Storing a new object adds exactly its size to the total. */
  lemma SumSizesAfterPut(order: seq<string>, objects: map<string, S3Object>, key: string, obj: S3Object)
    requires Sorted(order) && key !in order
    ensures SumSizes(Insert(order, key), objects[key := obj]) == SumSizes(order, objects) + obj.size
  {
    var keys := Insert(order, key);
    var m := objects[key := obj];
    InsertSorted(order, key);
    SortedDistinct(keys);
    SumSizesAfterRemove(keys, m, key);
    WithoutInsert(order, key);
    SumSizesFrame(order, m - {key}, objects);
  }

  /** Deleting a stored object takes exactly its size off the total. */
  lemma {:induction false} SumSizesAfterRemove(order: seq<string>, objects: map<string, S3Object>, key: string)
    requires Distinct(order) && key in order && key in objects
    ensures SumSizes(Without(order, key), objects - {key}) + objects[key].size == SumSizes(order, objects)
  {
    assert Distinct(order[1..]);
    if order[0] == key {
      assert key !in order[1..];
      SumSizesFrame(order[1..], objects - {key}, objects);
    } else {
      SumSizesAfterRemove(order[1..], objects, key);
    }
  }

  // ---------------------------------------------------------------- login

  /** `POST /login`: any non-empty email and password get the demo token. */
  function Login(email: Option<string>, password: Option<string>): (r: Reply)
    ensures r.status == 200 <==> Truthy(email) && Truthy(password)
    ensures r.status == 200 ==> r.body == Token("sample-token")
    ensures r.status != 200 ==> r == Reply(401, Message("Invalid credentials"))
  {
    if Truthy(email) && Truthy(password) then Reply(200, Token("sample-token"))
    else Reply(401, Message("Invalid credentials"))
  }

  // ----------------------------------------------------------------- lock

  /** Python's `s.isdigit()` on ASCII text: non-empty and all digits. */
  function IsDigits(s: string): (r: bool)
    ensures r <==> |s| > 0 && forall i :: 0 <= i < |s| ==> IsAsciiDigit(s[i])
  {
    if |s| == 0 then false
    else if |s| == 1 then IsAsciiDigit(s[0])
    else IsAsciiDigit(s[0]) && IsDigits(s[1..])
  }

  /** `POST /lock/<filename>`: the PIN check in front of the stub. */
  function LockFile(filename: string, pin: Option<string>): (r: Reply)
    ensures r.status == 200 <==>
      && pin.Some? && (|pin.value| == 4 || |pin.value| == 6)
      && forall i :: 0 <= i < |pin.value| ==> IsAsciiDigit(pin.value[i])
    ensures r.status != 200 ==> r == Reply(400, Error("PIN must be 4 or 6 digits"))
  {
    if !Truthy(pin) || !(|pin.value| == 4 || |pin.value| == 6) || !IsDigits(pin.value) then
      Reply(400, Error("PIN must be 4 or 6 digits"))
    else
      Reply(200, Message(filename + " lock functionality is not available in this local demo."))
  }

  // --------------------------------------------------------------- upload

  datatype UploadedFile = UploadedFile(filename: Option<string>, contentType: string, size: nat)

  /** The multipart request: the `file` part, if any, and the form fields. */
  datatype UploadRequest = UploadRequest(file: Option<UploadedFile>, form: map<string, string>)

  /** `f"{folder}/{filename}" if folder else filename`. */
  function UploadKey(folder: string, filename: string): string {
    if folder != "" then folder + "/" + filename else filename
  }

  /** The key of an upload lies under its folder, and its last segment, the
      name `/files` shows, is the stored file name. */
  lemma UploadKeyNamesFile(folder: string, filename: string)
    requires '/' !in filename
    ensures LastSegment(UploadKey(folder, filename)) == filename
    ensures folder == "" ==> UploadKey(folder, filename) == filename
    ensures folder != "" ==> StartsWith(UploadKey(folder, filename), folder + "/")
  {
    LastSegmentAfterSlash(folder, filename);
    if folder != "" {
      assert (folder + "/" + filename)[..|folder + "/"|] == folder + "/";
    }
  }

  /** The user metadata an upload stores. */
  function UploadMetadata(form: map<string, string>): Metadata {
    map[
      "folder" := Get(form, "folder", ""),
      "is_trashed" := "false",
      "pin" := Get(form, "pin", ""),
      "owner_email" := Get(form, "owner_email", ""),
      "owner_name" := Get(form, "owner_name", "")]
  }

  datatype UploadCheck = Rejected(reply: Reply) | Accepted(key: string, obj: S3Object)

  /** The checks `upload_file` makes before it writes: a missing file part,
      an empty file name and an existing key are each refused with 400;
      otherwise the object to store and its key. `secureFilename` stands for
      werkzeug's `secure_filename`. */
  function CheckUpload(objects: map<string, S3Object>, req: UploadRequest, secureFilename: string -> string): (c: UploadCheck)
    ensures c.Rejected? <==>
      || req.file.None?
      || !Truthy(req.file.value.filename)
      || UploadKey(Get(req.form, "folder", ""), secureFilename(req.file.value.filename.value)) in objects
    ensures c.Rejected? ==> c.reply.status == 400
    ensures c.Accepted? ==>
      && c.key == UploadKey(Get(req.form, "folder", ""), secureFilename(req.file.value.filename.value))
      && c.key !in objects
      && c.obj.size == req.file.value.size
      && c.obj.contentType == req.file.value.contentType
      && Listed(c.obj.metadata, "", "false")
      && Listed(c.obj.metadata, Get(req.form, "folder", ""), "false")
  {
    if req.file.None? then Rejected(Reply(400, Error("No file provided")))
    else if !Truthy(req.file.value.filename) then Rejected(Reply(400, Error("Empty file")))
    else
      var file := req.file.value;
      var key := UploadKey(Get(req.form, "folder", ""), secureFilename(file.filename.value));
      if key in objects then Rejected(Reply(400, Error("File already exists")))
      else Accepted(key, S3Object(file.size, file.contentType, UploadMetadata(req.form)))
  }

  /** `POST /upload`. A refused upload leaves the bucket as it was; an
      accepted one adds exactly one object, under a key that was free. */
  method UploadFile(s3: Bucket?, req: UploadRequest, secureFilename: string -> string) returns (r: Reply)
    requires s3 != null ==> s3.Valid()
    modifies s3
    ensures s3 == null ==> r == Reply(503, Error(NoClient))
    ensures s3 != null ==> s3.Valid()
    ensures s3 != null ==>
      match CheckUpload(old(s3.objects), req, secureFilename)
      case Rejected(reply) =>
        r == reply && s3.objects == old(s3.objects) && s3.order == old(s3.order)
      case Accepted(key, obj) =>
        && r == Reply(200, Uploaded(key + " uploaded to S3", obj.metadata))
        && s3.objects == old(s3.objects)[key := obj]
        && s3.order == Insert(old(s3.order), key)
  {
    if s3 == null {
      return Reply(503, Error(NoClient));
    }
    var check := CheckUpload(s3.objects, req, secureFilename);
    match check
    case Rejected(reply) =>
      r := reply;
    case Accepted(key, obj) =>
      s3.Put(key, obj);
      r := Reply(200, Uploaded(key + " uploaded to S3", obj.metadata));
  }

  // ---------------------------------------------------------------- files

  /** The filter of `list_files`: the object's `is_trashed` metadata must
      equal the requested `trashed` (both default to "false"), and when a
      folder is requested its `folder` metadata must equal it. */
  predicate Listed(meta: Metadata, folder: string, trashed: string) {
    && Get(meta, "is_trashed", "false") == trashed
    && (folder == "" || Get(meta, "folder", "") == folder)
  }

  /** The entry `list_files` builds for one object. */
  function Entry(key: string, obj: S3Object): FileEntry {
    var meta := obj.metadata;
    FileEntry(
      LastSegment(key), key, obj.size, "file",
      Get(meta, "folder", ""), Get(meta, "is_trashed", "false"),
      Get(meta, "owner_email", ""), Get(meta, "owner_name", ""),
      Get(meta, "pin", "") != "", obj.contentType)
  }

  /** The entries for `keys`, in order, of the objects that pass the filter. */
  function Listing(keys: seq<string>, objects: map<string, S3Object>, folder: string, trashed: string): seq<FileEntry>
    requires forall k :: k in keys ==> k in objects
  {
    if keys == [] then []
    else
      var rest := Listing(keys[..|keys| - 1], objects, folder, trashed);
      var k := keys[|keys| - 1];
      if Listed(objects[k].metadata, folder, trashed) then rest + [Entry(k, objects[k])] else rest
  }

  /** What `/files` lists: exactly the objects that pass the filter, each
      named by the last segment of its key and carrying its full key. */
  lemma ListingContents(keys: seq<string>, objects: map<string, S3Object>, folder: string, trashed: string)
    requires forall k :: k in keys ==> k in objects
    ensures var r := Listing(keys, objects, folder, trashed);
      && |r| <= |keys|
      && (forall e :: e in r ==>
            && e.key in keys && Listed(objects[e.key].metadata, folder, trashed)
            && e == Entry(e.key, objects[e.key]) && e.name == LastSegment(e.key))
      && (forall k :: k in keys && Listed(objects[k].metadata, folder, trashed) ==> Entry(k, objects[k]) in r)
  {
    ListingSound(keys, objects, folder, trashed);
    ListingComplete(keys, objects, folder, trashed);
  }

  /** Every listed entry is the entry of a key that passes the filter. */
  lemma {:induction false} ListingSound(keys: seq<string>, objects: map<string, S3Object>, folder: string, trashed: string)
    requires forall k :: k in keys ==> k in objects
    ensures |Listing(keys, objects, folder, trashed)| <= |keys|
    ensures forall e :: e in Listing(keys, objects, folder, trashed) ==>
      e.key in keys && Listed(objects[e.key].metadata, folder, trashed) && e == Entry(e.key, objects[e.key])
  {
    if keys != [] {
      var init := keys[..|keys| - 1];
      var k := keys[|keys| - 1];
      assert forall x :: x in init ==> x in keys;
      ListingSound(init, objects, folder, trashed);
      var rest := Listing(init, objects, folder, trashed);
      if Listed(objects[k].metadata, folder, trashed) {
        assert Listing(keys, objects, folder, trashed) == rest + [Entry(k, objects[k])];
      } else {
        assert Listing(keys, objects, folder, trashed) == rest;
      }
    }
  }

  /** Every key that passes the filter has its entry listed. */
  lemma {:induction false} ListingComplete(keys: seq<string>, objects: map<string, S3Object>, folder: string, trashed: string)
    requires forall k :: k in keys ==> k in objects
    ensures forall k :: k in keys && Listed(objects[k].metadata, folder, trashed) ==>
      Entry(k, objects[k]) in Listing(keys, objects, folder, trashed)
  {
    if keys != [] {
      var init := keys[..|keys| - 1];
      var last := keys[|keys| - 1];
      assert forall x :: x in init ==> x in keys;
      ListingComplete(init, objects, folder, trashed);
      var rest := Listing(init, objects, folder, trashed);
      assert forall x :: x in keys ==> x in init || x == last by {
        assert keys == init + [last];
      }
      if Listed(objects[last].metadata, folder, trashed) {
        assert Listing(keys, objects, folder, trashed) == rest + [Entry(last, objects[last])];
      } else {
        assert Listing(keys, objects, folder, trashed) == rest;
      }
    }
  }

  /** The entries in strictly ascending key order. */
  predicate KeysAscending(r: seq<FileEntry>) {
    forall i, j :: 0 <= i < j < |r| ==> KeyLess(r[i].key, r[j].key)
  }

  lemma AscendingAppend(rest: seq<FileEntry>, e: FileEntry)
    requires KeysAscending(rest)
    requires forall x :: x in rest ==> KeyLess(x.key, e.key)
    ensures KeysAscending(rest + [e])
  {
    var r := rest + [e];
    forall i, j | 0 <= i < j < |r| ensures KeyLess(r[i].key, r[j].key) {
      assert r[i] == rest[i];
      if j < |rest| {
        assert r[j] == rest[j];
      } else {
        assert rest[i] in rest;
      }
    }
  }

  /** Over a sorted bucket the listing comes out in ascending key order,
      as `list_objects_v2` returns it. */
  lemma {:induction false} ListingInKeyOrder(keys: seq<string>, objects: map<string, S3Object>, folder: string, trashed: string)
    requires forall k :: k in keys ==> k in objects
    requires Sorted(keys)
    ensures KeysAscending(Listing(keys, objects, folder, trashed))
  {
    if keys != [] {
      var init := keys[..|keys| - 1];
      var last := keys[|keys| - 1];
      assert forall x :: x in init ==> x in keys;
      assert Sorted(init);
      ListingInKeyOrder(init, objects, folder, trashed);
      var rest := Listing(init, objects, folder, trashed);
      if Listed(objects[last].metadata, folder, trashed) {
        assert init + [last] == keys;
        ListingBelow(init, objects, folder, trashed, last);
        AscendingAppend(rest, Entry(last, objects[last]));
        assert Listing(keys, objects, folder, trashed) == rest + [Entry(last, objects[last])];
      } else {
        assert Listing(keys, objects, folder, trashed) == rest;
      }
    }
  }

  /** Keys that all list before `bound` give entries that all do. */
  lemma ListingBelow(init: seq<string>, objects: map<string, S3Object>, folder: string, trashed: string, bound: string)
    requires forall k :: k in init ==> k in objects
    requires Sorted(init + [bound])
    ensures forall e :: e in Listing(init, objects, folder, trashed) ==> KeyLess(e.key, bound)
  {
    var keys := init + [bound];
    forall x | x in init ensures KeyLess(x, bound) {
      var m :| 0 <= m < |init| && init[m] == x;
      assert keys[m] == x && keys[|init|] == bound;
    }
    ListingSound(init, objects, folder, trashed);
  }

  /** `GET /files?folder=…&trashed=…`. */
  method ListFiles(s3: Bucket?, args: map<string, string>) returns (r: Reply)
    requires s3 != null ==> s3.Valid()
    ensures s3 == null ==> r == Reply(200, Files([], Some(NoClient)))
    ensures s3 != null ==>
      r == Reply(200, Files(Listing(s3.order, s3.objects, Get(args, "folder", ""), Get(args, "trashed", "false")), None))
    ensures s3 != null ==> KeysAscending(r.body.files)
  {
    if s3 == null {
      return Reply(200, Files([], Some(NoClient)));
    }
    var folder := Get(args, "folder", "");
    var trashed := Get(args, "trashed", "false");
    var files: seq<FileEntry> := [];
    var i := 0;
    while i < |s3.order|
      invariant 0 <= i <= |s3.order|
      invariant files == Listing(s3.order[..i], s3.objects, folder, trashed)
    {
      var key := s3.order[i];
      var obj := s3.objects[key];
      assert s3.order[..i + 1][..i] == s3.order[..i];
      if Listed(obj.metadata, folder, trashed) {
        files := files + [Entry(key, obj)];
      }
      i := i + 1;
    }
    assert s3.order[..i] == s3.order;
    ListingInKeyOrder(s3.order, s3.objects, folder, trashed);
    r := Reply(200, Files(files, None));
  }

  /** An accepted upload shows in the next listing of its folder (or of the
      root listing), under the sanitised file name. */
  lemma UploadedFileIsListed(
    order: seq<string>, objects: map<string, S3Object>, req: UploadRequest,
    secureFilename: string -> string, listFolder: string)
    requires forall k :: k in order ==> k in objects
    requires CheckUpload(objects, req, secureFilename).Accepted?
    requires '/' !in secureFilename(req.file.value.filename.value)
    requires listFolder == "" || listFolder == Get(req.form, "folder", "")
    ensures var c := CheckUpload(objects, req, secureFilename);
      var listed := Listing(Insert(order, c.key), objects[c.key := c.obj], listFolder, "false");
      exists e :: e in listed && e.key == c.key && e.name == secureFilename(req.file.value.filename.value)
  {
    var c := CheckUpload(objects, req, secureFilename);
    var keys := Insert(order, c.key);
    var objs := objects[c.key := c.obj];
    UploadKeyNamesFile(Get(req.form, "folder", ""), secureFilename(req.file.value.filename.value));
    ListingComplete(keys, objs, listFolder, "false");
    var e := Entry(c.key, c.obj);
    assert e in Listing(keys, objs, listFolder, "false");
  }

  // --------------------------------------------------------------- delete

  /** `DELETE /delete/<filename>`: 404 for a missing key, which changes
      nothing; otherwise exactly that key is removed. */
  method DeleteFile(s3: Bucket?, filename: string) returns (r: Reply)
    requires s3 != null ==> s3.Valid()
    modifies s3
    ensures s3 == null ==> r == Reply(503, Error(NoClient))
    ensures s3 != null ==> s3.Valid()
    ensures s3 != null && filename !in old(s3.objects) ==>
      r == Reply(404, Error("File not found")) && s3.objects == old(s3.objects) && s3.order == old(s3.order)
    ensures s3 != null && filename in old(s3.objects) ==>
      && r == Reply(200, Message(filename + " deleted from S3"))
      && s3.objects == old(s3.objects) - {filename}
      && s3.order == Without(old(s3.order), filename)
  {
    if s3 == null {
      return Reply(503, Error(NoClient));
    }
    if filename !in s3.objects {
      return Reply(404, Error("File not found"));
    }
    s3.Remove(filename);
    r := Reply(200, Message(filename + " deleted from S3"));
  }

  // -------------------------------------------------------------- storage

  /** `GET /storage`: the sum of the sizes of all objects, 0 without a client. */
  method GetStorageUsage(s3: Bucket?) returns (r: Reply)
    requires s3 != null ==> s3.Valid()
    ensures s3 == null ==> r == Reply(200, Usage(0, Some(NoClient)))
    ensures s3 != null ==> r == Reply(200, Usage(s3.TotalBytes(), None))
    ensures s3 != null && s3.objects == map[] ==> r.body.totalBytes == 0
  {
    if s3 == null {
      return Reply(200, Usage(0, Some(NoClient)));
    }
    r := Reply(200, Usage(s3.TotalBytes(), None));
  }

  // ------------------------------------------------------------- metadata

  /** `set_s3_metadata`: merges `newMetadata` into a stored object's
      metadata, later keys winning as in `dict.update`; false, with nothing
      changed, when there is no client or no such key. */
  method SetS3Metadata(s3: Bucket?, key: string, newMetadata: Metadata) returns (ok: bool)
    requires s3 != null ==> s3.Valid()
    modifies s3
    ensures ok <==> s3 != null && key in old(s3.objects)
    ensures s3 != null ==> s3.Valid() && s3.order == old(s3.order)
    ensures s3 != null && !ok ==> s3.objects == old(s3.objects)
    ensures ok ==>
      var before := old(s3.objects[key]);
      && s3.objects == old(s3.objects)[key := before.(metadata := before.metadata + newMetadata)]
      && (forall m :: m in newMetadata ==> s3.objects[key].metadata[m] == newMetadata[m])
      && (forall m :: m in before.metadata && m !in newMetadata ==> s3.objects[key].metadata[m] == before.metadata[m])
  {
    if s3 == null || key !in s3.objects {
      return false;
    }
    var meta := s3.objects[key].metadata;
    meta := meta + newMetadata;
    s3.ReplaceMetadata(key, meta);
    ok := true;
  }
}
