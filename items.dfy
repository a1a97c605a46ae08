/** The SQLite-backed item service: a table of rows keyed by their
    auto-increment id, and the upload directory as the set of names of the
    files in it. Database outcomes (an exception, the reported row count) and
    the success of moving an upload are inputs of each operation. */
module Items {
  import opened Php
  import opened Media
  import Config

  /** A row of the `items` table (timestamps are not modelled). */
  datatype Row = Row(name: string, description: string, price: real, imageUrl: Option<string>)

  /** An item as returned to the client. */
  datatype Item = Item(id: int, name: string, description: string, price: real, imageUrl: Option<string>)

  function ItemOf(id: int, row: Row): Item {
    Item(id, row.name, row.description, row.price, row.imageUrl)
  }

  /** The form fields of a create request. */
  datatype AddForm = AddForm(name: Option<string>, description: Option<string>, price: Option<NumericField>)

  /** The form fields of an update request. */
  datatype UpdateForm = UpdateForm(
    name: Option<string>, description: Option<string>, price: Option<NumericField>,
    existingImageUrl: Option<string>)

  /** The array every mutating operation returns. */
  datatype Reply = Reply(success: bool, message: string, item: Option<Item>, status: int)

  datatype Listing = Listed(items: seq<Item>) | ListFailed(error: string) {
    function Status(): int {
      if Listed? then 200 else 500
    }
  }

  /** How an UPDATE or DELETE statement ended: it threw, or it reported a row count. */
  datatype DbWrite = Throws | Affected(rowCount: nat)

  const MsgListFailed: string := "Failed to retrieve items from database."
  const MsgMissingFields: string := "Missing required item fields (name, description, price)."
  const MsgPriceNotNumber: string := "Price must be a number."
  const MsgBadType: string := "Invalid file type. Only JPG, JPEG, PNG, GIF allowed."
  const MsgTooLarge: string := "File size exceeds limit (5MB)."
  const MsgMoveFailed: string := "Failed to move uploaded file. Check permissions."
  const MsgNoImage: string := "No image file uploaded for new item."
  const MsgAdded: string := "Item added successfully!"
  const MsgAddFailed: string := "Failed to add item to database."
  const MsgUpdateNotFound: string := "Item to update not found."
  const MsgUpdateBadType: string := "Invalid file type for new image. Only JPG, JPEG, PNG, GIF allowed."
  const MsgUpdateTooLarge: string := "New image file size exceeds limit (5MB)."
  const MsgUpdateMoveFailed: string := "Failed to move new uploaded file. Check permissions."
  const MsgUpdated: string := "Item updated successfully!"
  const MsgNoChanges: string := "Item found but no changes applied or update failed."
  const MsgUpdateFailed: string := "Failed to update item in database."
  const MsgDeleteNotFound: string := "Item not found."
  const MsgDeleted: string := "Item deleted successfully!"
  const MsgDeleteVanished: string := "Failed to delete item (possibly not found after check)."
  const MsgDeleteFailed: string := "Failed to delete item from database."

  function Rejected(status: int, message: string): Reply {
    Reply(false, message, None, status)
  }

  /** The extension of an upload as this backend computes it: `pathinfo`, lower-cased. */
  function UploadExtension(u: Upload): string {
    ToLower(PathInfoExtension(u.clientName))
  }

  /** The name under which an upload is stored. */
  function NewFileName(digest: string, u: Upload): string {
    StoredFileName(digest, UploadExtension(u))
  }

  /** Name and description present and not empty (PHP `empty()`), price present. */
  predicate FieldsComplete(form: AddForm) {
    !IsEmptyString(form.name.GetOr("")) && !IsEmptyString(form.description.GetOr("")) && form.price.Some?
  }

  /** The reply of the first failing check of a create request, in the order
      fields, price, image present, image type, image size; None when every
      check passes. */
  function AddRejection(form: AddForm, file: Option<Upload>): (r: Option<Reply>)
    ensures r.None? <==>
      FieldsComplete(form) && form.price.value.isNumeric && Uploaded(file)
      && CheckImage(UploadExtension(file.value), file.value.size) == Accepted
    ensures r.Some? ==> r.value.status == 400 && !r.value.success && r.value.item.None?
    ensures !FieldsComplete(form) ==> r == Some(Rejected(400, MsgMissingFields))
    ensures FieldsComplete(form) && !form.price.value.isNumeric ==> r == Some(Rejected(400, MsgPriceNotNumber))
    ensures FieldsComplete(form) && form.price.value.isNumeric && !Uploaded(file) ==> r == Some(Rejected(400, MsgNoImage))
    ensures FieldsComplete(form) && form.price.value.isNumeric && Uploaded(file) ==>
      && (CheckImage(UploadExtension(file.value), file.value.size) == BadType ==> r == Some(Rejected(400, MsgBadType)))
      && (CheckImage(UploadExtension(file.value), file.value.size) == TooLarge ==> r == Some(Rejected(400, MsgTooLarge)))
  {
    if !FieldsComplete(form) then Some(Rejected(400, MsgMissingFields))
    else if !form.price.value.isNumeric then Some(Rejected(400, MsgPriceNotNumber))
    else if !Uploaded(file) then Some(Rejected(400, MsgNoImage))
    else match CheckImage(UploadExtension(file.value), file.value.size)
      case BadType => Some(Rejected(400, MsgBadType))
      case TooLarge => Some(Rejected(400, MsgTooLarge))
      case Accepted => None
  }

  /** The reply when a replacement image of an update fails the image check. */
  function UpdateImageRejection(file: Option<Upload>): (r: Option<Reply>)
    ensures r.None? <==> !Uploaded(file) || CheckImage(UploadExtension(file.value), file.value.size) == Accepted
    ensures r.Some? ==> r.value.status == 400 && !r.value.success
    ensures Uploaded(file) && CheckImage(UploadExtension(file.value), file.value.size) == BadType ==>
      r == Some(Rejected(400, MsgUpdateBadType))
    ensures Uploaded(file) && CheckImage(UploadExtension(file.value), file.value.size) == TooLarge ==>
      r == Some(Rejected(400, MsgUpdateTooLarge))
  {
    if !Uploaded(file) then None
    else match CheckImage(UploadExtension(file.value), file.value.size)
      case BadType => Some(Rejected(400, MsgUpdateBadType))
      case TooLarge => Some(Rejected(400, MsgUpdateTooLarge))
      case Accepted => None
  }

  /** The three image policies of an update. */
  datatype ImageChoice = Replace(fileName: string) | Remove | Keep

  /** The image policy, checked in this order: a valid upload replaces the
      image, an explicit empty `existingImageUrl` removes it, anything else
      keeps it. */
  function ChooseImage(form: UpdateForm, file: Option<Upload>, digest: string): (c: ImageChoice)
    ensures c.Replace? <==> Uploaded(file)
    ensures c.Replace? ==> c.fileName == NewFileName(digest, file.value)
    ensures c.Remove? <==> !Uploaded(file) && form.existingImageUrl == Some("")
  {
    if Uploaded(file) then Replace(NewFileName(digest, file.value))
    else if form.existingImageUrl == Some("") then Remove
    else Keep
  }

  /** The image URL written by an update. */
  function ImageUrlAfter(current: Option<string>, c: ImageChoice): Option<string> {
    match c
    case Replace(n) => Some(StoredUrl(n))
    case Remove => None
    case Keep => current
  }

  /** The files an update's image step writes. */
  function Moved(c: ImageChoice): set<string> {
    if c.Replace? then {c.fileName} else {}
  }

  /** The old file an update marks for deletion: the current image's file,
      when the image is replaced or removed and that file exists. */
  function MarkedFile(current: Option<string>, c: ImageChoice, files: set<string>): (m: Option<string>)
    ensures m.Some? ==> m == ImageFile(current) && m.value in files && !c.Keep?
    ensures !c.Keep? && ImageFile(current).Some? && ImageFile(current).value in files ==> m == ImageFile(current)
  {
    if c.Keep? then None
    else match ImageFile(current)
      case Some(f) => if f in files then Some(f) else None
      case None => None
  }

  /** The row an update writes: a field that is absent keeps its stored value. */
  function MergeRow(row: Row, form: UpdateForm, url: Option<string>): Row {
    Row(form.name.GetOr(row.name), form.description.GetOr(row.description),
        if form.price.Some? then form.price.value.asFloat else row.price, url)
  }

  /** A merged row takes each present field from the form, keeps each absent
      one, and carries the image URL chosen by the image policy. */
  lemma MergeRowKeepsAbsentFields(row: Row, form: UpdateForm, url: Option<string>)
    ensures var r := MergeRow(row, form, url);
      && (form.name.None? ==> r.name == row.name)
      && (form.name.Some? ==> r.name == form.name.value)
      && (form.description.None? ==> r.description == row.description)
      && (form.description.Some? ==> r.description == form.description.value)
      && (form.price.None? ==> r.price == row.price)
      && (form.price.Some? ==> r.price == form.price.value.asFloat)
      && r.imageUrl == url
  {
  }

  /** Every row's image file is in the upload directory. */
  predicate FilesPresent(rows: map<int, Row>, files: set<string>) {
    forall id :: id in rows && ImageFile(rows[id].imageUrl).Some? ==> ImageFile(rows[id].imageUrl).value in files
  }

  /** No two rows share an image file. */
  predicate FilesDistinct(rows: map<int, Row>) {
    forall a, b :: a in rows && b in rows && a != b && ImageFile(rows[a].imageUrl).Some? ==>
      ImageFile(rows[a].imageUrl) != ImageFile(rows[b].imageUrl)
  }

  /** Strictly decreasing ids: the `ORDER BY id DESC` of the listing. */
  predicate DescendingIds(items: seq<Item>) {
    forall i, j :: 0 <= i < j < |items| ==> items[i].id > items[j].id
  }

  /** The rows with ids 1..k, as items, from id k down: what
      `ORDER BY id DESC` returns for a table whose ids are at most k. */
  function ListedFrom(table: map<int, Row>, k: nat): seq<Item>
    decreases k
  {
    if k == 0 then []
    else (if k in table then [ItemOf(k, table[k])] else []) + ListedFrom(table, k - 1)
  }

  /** Every listed item is a row of the table, with ids in 1..k, strictly
      descending. */
  lemma {:induction false} ListedFromRows(table: map<int, Row>, k: nat)
    ensures var items := ListedFrom(table, k);
      && DescendingIds(items)
      && forall i :: 0 <= i < |items| ==>
           1 <= items[i].id <= k && items[i].id in table && items[i] == ItemOf(items[i].id, table[items[i].id])
    decreases k
  {
    if k > 0 {
      ListedFromRows(table, k - 1);
      var rest := ListedFrom(table, k - 1);
      if k in table {
        var items := [ItemOf(k, table[k])] + rest;
        assert forall i :: 1 <= i < |items| ==> items[i] == rest[i - 1];
      }
    }
  }

  /** Some item of `items` has id `id`. */
  predicate Lists(items: seq<Item>, id: int) {
    exists i :: 0 <= i < |items| && items[i].id == id
  }

  /** Every row whose id is in 1..k is listed. */
  lemma {:induction false} ListedFromCovers(table: map<int, Row>, k: nat)
    ensures forall id :: id in table && 1 <= id <= k ==> Lists(ListedFrom(table, k), id)
    decreases k
  {
    if k > 0 {
      ListedFromCovers(table, k - 1);
      var rest := ListedFrom(table, k - 1);
      var head: seq<Item> := if k in table then [ItemOf(k, table[k])] else [];
      var items := head + rest;
      assert items == ListedFrom(table, k);
      forall id | id in table && 1 <= id <= k
        ensures Lists(items, id)
      {
        if id == k {
          assert items[0].id == id;
        } else {
          var i :| 0 <= i < |rest| && rest[i].id == id;
          assert items[|head| + i].id == id;
        }
      }
    }
  }

  /** Rows with ids above k do not affect the listing from k. */
  lemma {:induction false} ListedFromIgnoresAbove(table: map<int, Row>, k: nat, j: int)
    requires j > k
    ensures ListedFrom(table - {j}, k) == ListedFrom(table, k)
    decreases k
  {
    if k > 0 {
      ListedFromIgnoresAbove(table, k - 1, j);
    }
  }

  /** When every id is in 1..k, the listing has one item per row. */
  lemma {:induction false} ListedFromLength(table: map<int, Row>, k: nat)
    requires forall id :: id in table ==> 1 <= id <= k
    ensures |ListedFrom(table, k)| == |table|
    decreases k
  {
    if k == 0 {
      assert forall id :: id !in table;
      assert table.Keys == {};
    } else if k in table {
      var smaller := table - {k};
      ListedFromLength(smaller, k - 1);
      ListedFromIgnoresAbove(table, k - 1, k);
    } else {
      ListedFromLength(table, k - 1);
    }
  }

  /** Every image present and owned by one row. */
  predicate ConsistentState(rows: map<int, Row>, files: set<string>) {
    FilesPresent(rows, files) && FilesDistinct(rows)
  }

  /** Writing one row, whose image file is either absent, newly stored, or
      the row's previous file left in place, and then deleting at most the
      row's previous file keeps every image present and owned by one row.
      This is the ordering discipline of add and update: the new file is
      stored before the row points at it, and the old file goes only once
      the row no longer does. */
  lemma {:induction false} WriteRowKeepsConsistent(rows: map<int, Row>, files: set<string>, id: int, row: Row,
                                                   moved: set<string>, marked: Option<string>)
    requires ConsistentState(rows, files)
    requires moved !! files
    requires marked.Some? ==> id in rows && marked == ImageFile(rows[id].imageUrl)
    requires ImageFile(row.imageUrl).Some? ==>
      ImageFile(row.imageUrl).value in moved
      || (id in rows && marked.None? && ImageFile(row.imageUrl) == ImageFile(rows[id].imageUrl))
    ensures ConsistentState(rows[id := row], (files + moved) - SetOf(marked))
  {
    var rows' := rows[id := row];
    var files' := (files + moved) - SetOf(marked);
    forall b | b in rows' && ImageFile(rows'[b].imageUrl).Some?
      ensures ImageFile(rows'[b].imageUrl).value in files'
    {
      if b != id {
        assert rows'[b] == rows[b];
        assert ImageFile(rows[b].imageUrl).value in files;
        if marked.Some? {
          assert ImageFile(rows[b].imageUrl) != ImageFile(rows[id].imageUrl);
        }
      } else if ImageFile(row.imageUrl).value in moved {
        if marked.Some? {
          assert marked.value in files;
        }
      }
    }
    forall a, b | a in rows' && b in rows' && a != b && ImageFile(rows'[a].imageUrl).Some?
      ensures ImageFile(rows'[a].imageUrl) != ImageFile(rows'[b].imageUrl)
    {
      if a == id {
        assert rows'[b] == rows[b];
        if ImageFile(rows[b].imageUrl).Some? {
          assert ImageFile(rows[b].imageUrl).value in files;
        }
      } else if b == id {
        assert rows'[a] == rows[a];
        assert ImageFile(rows[a].imageUrl).value in files;
      } else {
        assert rows'[a] == rows[a] && rows'[b] == rows[b];
      }
    }
  }

  /** Removing a row, with or without its image file, keeps every remaining
      image present and owned by one row. */
  lemma DeleteRowKeepsConsistent(rows: map<int, Row>, files: set<string>, id: int)
    requires ConsistentState(rows, files) && id in rows
    ensures ConsistentState(rows - {id}, files - SetOf(ImageFile(rows[id].imageUrl)))
    ensures ConsistentState(rows - {id}, files)
  {
    var rows' := rows - {id};
    forall b | b in rows' && ImageFile(rows'[b].imageUrl).Some?
      ensures ImageFile(rows'[b].imageUrl).value in files - SetOf(ImageFile(rows[id].imageUrl))
    {
      assert ImageFile(rows[b].imageUrl) != ImageFile(rows[id].imageUrl);
    }
  }

  /** Storing files that no row points at (an orphan) keeps the state consistent. */
  lemma GrowKeepsConsistent(rows: map<int, Row>, files: set<string>, moved: set<string>)
    requires ConsistentState(rows, files)
    ensures ConsistentState(rows, files + moved)
  {
  }

  /** A price-only (or fields-only) update keeps the image and marks nothing. */
  lemma KeepLeavesImageAlone(current: Option<string>, form: UpdateForm, file: Option<Upload>,
                             digest: string, files: set<string>)
    requires !Uploaded(file) && form.existingImageUrl != Some("")
    ensures ImageUrlAfter(current, ChooseImage(form, file, digest)) == current
    ensures MarkedFile(current, ChooseImage(form, file, digest), files).None?
    ensures Moved(ChooseImage(form, file, digest)) == {}
  {
  }

  /** What the service acts on: the `items` table keyed by id, the names of
      the files in the upload directory and the AUTOINCREMENT sequence (the
      largest id ever handed out). */
  datatype Store = Store(rows: map<int, Row>, uploads: set<string>, lastId: nat)

  /** The reply of an operation and the store it leaves behind. */
  datatype Step = Step(reply: Reply, after: Store)

  /** Ids are positive and never above the sequence. */
  predicate IdsInRange(s: Store) {
    forall id :: id in s.rows ==> 1 <= id <= s.lastId
  }

  /** Every row's image file exists and belongs to that row alone. */
  predicate Consistent(s: Store) {
    ConsistentState(s.rows, s.uploads)
  }

  /** The row a create request inserts. */
  function NewRow(form: AddForm, fileName: string): Row
    requires form.name.Some? && form.description.Some? && form.price.Some?
  {
    Row(form.name.value, form.description.value, form.price.value.asFloat, Some(StoredUrl(fileName)))
  }

  /** `addItem`: validate, store the image, insert; a throwing insert removes
      the stored image again. */
  function AddOutcome(s: Store, form: AddForm, file: Option<Upload>, digest: string,
                      moveOk: bool, insertThrows: bool): (o: Step)
    ensures o.reply.success <==> AddRejection(form, file).None? && moveOk && !insertThrows
    ensures IdsInRange(s) ==> IdsInRange(o.after)
  {
    match AddRejection(form, file)
    case Some(r) => Step(r, s)
    case None =>
      var n := NewFileName(digest, file.value);
      if !moveOk then Step(Rejected(500, MsgMoveFailed), s)
      else if insertThrows then Step(Rejected(500, MsgAddFailed), s.(uploads := s.uploads - {n}))
      else
        var id := s.lastId + 1;
        var row := NewRow(form, n);
        Step(Reply(true, MsgAdded, Some(ItemOf(id, row)), 201), Store(s.rows[id := row], s.uploads + {n}, id))
  }

  /** What a create does: a validation failure changes nothing; a success
      inserts the form's fields and the stored image's URL under the next id
      and returns that row; any failure leaves the table and the sequence as
      they were and leaves no new file behind. */
  lemma AddInsertsOneRow(s: Store, form: AddForm, file: Option<Upload>, digest: string,
                         moveOk: bool, insertThrows: bool)
    ensures var o := AddOutcome(s, form, file, digest, moveOk, insertThrows);
      && (AddRejection(form, file).Some? ==> o == Step(AddRejection(form, file).value, s))
      && (o.reply.success ==>
            var n := NewFileName(digest, file.value);
            && o.reply.message == MsgAdded
            && o.reply.status == 201
            && o.after.lastId == s.lastId + 1
            && o.after.rows == s.rows[o.after.lastId := NewRow(form, n)]
            && o.after.uploads == s.uploads + {n}
            && o.reply.item == Some(ItemOf(o.after.lastId, o.after.rows[o.after.lastId])))
      && (!o.reply.success ==>
            && o.reply.status in {400, 500} && o.reply.item.None?
            && o.after.rows == s.rows && o.after.lastId == s.lastId && o.after.uploads <= s.uploads)
      && (AddRejection(form, file).None? && !moveOk ==> o == Step(Rejected(500, MsgMoveFailed), s))
      && (AddRejection(form, file).None? && moveOk && insertThrows ==>
            o == Step(Rejected(500, MsgAddFailed), s.(uploads := s.uploads - {NewFileName(digest, file.value)})))
  {
  }

  /** With a fresh file name, a create keeps every image present and owned by
      one row, inserts under an id no row had, and a failed create leaves the
      upload directory exactly as it was (no orphan file). */
  lemma AddKeepsConsistent(s: Store, form: AddForm, file: Option<Upload>, digest: string,
                           moveOk: bool, insertThrows: bool)
    requires IdsInRange(s) && Consistent(s) && IsMd5Digest(digest)
    requires Uploaded(file) ==> NewFileName(digest, file.value) !in s.uploads
    ensures var o := AddOutcome(s, form, file, digest, moveOk, insertThrows);
      && Consistent(o.after)
      && (o.reply.success ==> o.after.lastId !in s.rows && |o.after.rows| == |s.rows| + 1)
      && (!o.reply.success ==> o.after == s)
  {
    var o := AddOutcome(s, form, file, digest, moveOk, insertThrows);
    if AddRejection(form, file).None? && moveOk {
      var n := NewFileName(digest, file.value);
      if insertThrows {
        assert s.uploads - {n} == s.uploads;
      } else {
        StoredUrlRoundTrip(digest, UploadExtension(file.value));
        assert s.lastId + 1 !in s.rows;
        WriteRowKeepsConsistent(s.rows, s.uploads, s.lastId + 1, NewRow(form, n), {n}, None);
        assert s.uploads + {n} - SetOf(None) == s.uploads + {n};
      }
    }
  }

  /** The outcome of an update's image step: a rejection, or the URL to
      write, the files stored and the old file marked for deletion. */
  datatype ImageStep =
    | ImageRejected(reply: Reply)
    | ImageApplied(url: Option<string>, stored: set<string>, marked: Option<string>)

  /** The image step of an update against the upload directory `files`. */
  function ImageStepOf(current: Option<string>, form: UpdateForm, file: Option<Upload>, digest: string,
                       moveOk: bool, files: set<string>): (r: ImageStep)
    ensures r.ImageRejected? <==> UpdateImageRejection(file).Some? || (Uploaded(file) && !moveOk)
    ensures r.ImageRejected? ==> !r.reply.success && r.reply.status in {400, 500}
    ensures UpdateImageRejection(file).Some? ==> r == ImageRejected(UpdateImageRejection(file).value)
    ensures UpdateImageRejection(file).None? && Uploaded(file) && !moveOk ==>
      r == ImageRejected(Rejected(500, MsgUpdateMoveFailed))
    ensures r.ImageApplied? ==>
      var c := ChooseImage(form, file, digest);
      && r.url == ImageUrlAfter(current, c)
      && r.stored == Moved(c)
      && r.marked == MarkedFile(current, c, files + r.stored)
  {
    match UpdateImageRejection(file)
    case Some(reply) => ImageRejected(reply)
    case None =>
      if Uploaded(file) && !moveOk then ImageRejected(Rejected(500, MsgUpdateMoveFailed))
      else
        var c := ChooseImage(form, file, digest);
        ImageApplied(ImageUrlAfter(current, c), Moved(c), MarkedFile(current, c, files + Moved(c)))
  }

  /** `updateItem`: look the row up, apply the image policy, write the row,
      and delete the marked old file only once the write reports a change. */
  function UpdateOutcome(s: Store, id: int, form: UpdateForm, file: Option<Upload>, digest: string,
                         moveOk: bool, selectThrows: bool, write: DbWrite): (o: Step)
    ensures o.after.lastId == s.lastId
    ensures IdsInRange(s) ==> IdsInRange(o.after)
    ensures o.reply.success <==>
      && !selectThrows && id in s.rows && UpdateImageRejection(file).None? && (Uploaded(file) ==> moveOk)
      && write.Affected?
      && (write.rowCount > 0 || ImageUrlAfter(s.rows[id].imageUrl, ChooseImage(form, file, digest)) != s.rows[id].imageUrl)
    ensures !selectThrows && id in s.rows && UpdateImageRejection(file).None? && (Uploaded(file) ==> moveOk) ==>
      && (write.Throws? ==> o.reply == Rejected(500, MsgUpdateFailed) && o.after.rows == s.rows)
      && (write == Affected(0) && ImageUrlAfter(s.rows[id].imageUrl, ChooseImage(form, file, digest)) == s.rows[id].imageUrl ==>
            && o.reply == Rejected(200, MsgNoChanges)
            && o.after.rows == s.rows[id := MergeRow(s.rows[id], form, s.rows[id].imageUrl)])
  {
    if selectThrows then Step(Rejected(500, MsgUpdateFailed), s)
    else if id !in s.rows then Step(Rejected(404, MsgUpdateNotFound), s)
    else
      var current := s.rows[id].imageUrl;
      match ImageStepOf(current, form, file, digest, moveOk, s.uploads)
      case ImageRejected(r) => Step(r, s)
      case ImageApplied(url, stored, marked) =>
        var files := s.uploads + stored;
        match write
        case Throws => Step(Rejected(500, MsgUpdateFailed), s.(uploads := files))
        case Affected(count) =>
          var row := MergeRow(s.rows[id], form, url);
          if count > 0 || url != current then
            Step(Reply(true, MsgUpdated, Some(ItemOf(id, row)), 200),
                 Store(s.rows[id := row], files - SetOf(marked), s.lastId))
          else
            Step(Rejected(200, MsgNoChanges), Store(s.rows[id := row], files, s.lastId))
  }

  /** What an update may change: only the row `id`, written as the merged
      form whenever the statement runs; the replies of the early exits; and
      only the new file and the row's current file in the upload directory. */
  lemma UpdateTouchesOnlyItsRow(s: Store, id: int, form: UpdateForm, file: Option<Upload>, digest: string,
                                moveOk: bool, selectThrows: bool, write: DbWrite)
    ensures var o := UpdateOutcome(s, id, form, file, digest, moveOk, selectThrows, write);
      && o.after.rows.Keys == s.rows.Keys
      && (forall k :: k in s.rows && k != id ==> o.after.rows[k] == s.rows[k])
      && (selectThrows ==> o == Step(Rejected(500, MsgUpdateFailed), s))
      && (!selectThrows && id !in s.rows ==> o == Step(Rejected(404, MsgUpdateNotFound), s))
      && (!selectThrows && id in s.rows && (UpdateImageRejection(file).Some? || (Uploaded(file) && !moveOk)) ==>
            o.after == s && !o.reply.success && o.reply.status in {400, 500})
      && (!selectThrows && id in s.rows && UpdateImageRejection(file).None? && (Uploaded(file) ==> moveOk)
          && write.Affected? ==>
            o.after.rows[id] == MergeRow(s.rows[id], form, ImageUrlAfter(s.rows[id].imageUrl, ChooseImage(form, file, digest))))
      && (o.reply.success ==> o.reply.status == 200 && o.reply.item == Some(ItemOf(id, o.after.rows[id])))
      && o.after.uploads <= s.uploads + (if Uploaded(file) then {NewFileName(digest, file.value)} else {})
      && (id in s.rows ==> s.uploads - SetOf(ImageFile(s.rows[id].imageUrl)) <= o.after.uploads)
      && (!o.reply.success ==> o.after.uploads >= s.uploads)
  {
  }

  /** The upload directory after an update that got past the image checks:
      the moved file is added, and the current image's file is taken away
      exactly when the write reports a change; after a throwing write or an
      unchanged row both files stay. A kept image adds and removes nothing. */
  lemma UpdateUploadsExactly(s: Store, id: int, form: UpdateForm, file: Option<Upload>, digest: string,
                             moveOk: bool, selectThrows: bool, write: DbWrite)
    requires !selectThrows && id in s.rows && UpdateImageRejection(file).None? && (Uploaded(file) ==> moveOk)
    ensures var o := UpdateOutcome(s, id, form, file, digest, moveOk, selectThrows, write);
      var c := ChooseImage(form, file, digest);
      var current := s.rows[id].imageUrl;
      && (o.reply.success ==>
            o.after.uploads == (s.uploads + Moved(c)) - SetOf(MarkedFile(current, c, s.uploads + Moved(c))))
      && (!o.reply.success ==> o.after.uploads == s.uploads + Moved(c))
      && (c.Keep? ==> o.after.uploads == s.uploads && o.after.rows[id].imageUrl == current)
  {
    var c := ChooseImage(form, file, digest);
    if c.Keep? {
      assert Moved(c) == {} && MarkedFile(s.rows[id].imageUrl, c, s.uploads) == None;
      assert s.uploads + {} - {} == s.uploads;
    }
  }

  /** With a fresh file name, an update keeps every image present and owned by
      one row: the new file is stored before the row points at it, and the
      old file goes only after the row no longer does. */
  lemma UpdateKeepsConsistent(s: Store, id: int, form: UpdateForm, file: Option<Upload>, digest: string,
                              moveOk: bool, selectThrows: bool, write: DbWrite)
    requires Consistent(s) && IsMd5Digest(digest)
    requires Uploaded(file) ==> NewFileName(digest, file.value) !in s.uploads
    ensures Consistent(UpdateOutcome(s, id, form, file, digest, moveOk, selectThrows, write).after)
  {
    if !selectThrows && id in s.rows && UpdateImageRejection(file).None? && (Uploaded(file) ==> moveOk) {
      var c := ChooseImage(form, file, digest);
      var current := s.rows[id].imageUrl;
      var url := ImageUrlAfter(current, c);
      var files := s.uploads + Moved(c);
      if c.Replace? {
        StoredUrlRoundTrip(digest, UploadExtension(file.value));
      }
      match write
      case Throws =>
        GrowKeepsConsistent(s.rows, s.uploads, Moved(c));
      case Affected(count) =>
        var row := MergeRow(s.rows[id], form, url);
        if count > 0 || url != current {
          WriteRowKeepsConsistent(s.rows, s.uploads, id, row, Moved(c), MarkedFile(current, c, files));
        } else {
          WriteRowKeepsConsistent(s.rows, s.uploads, id, row, Moved(c), None);
          assert files - SetOf(None) == files;
        }
    }
  }

  /** A successful replacement points the row at the newly stored file, and the
      previous image file is gone from the upload directory. */
  lemma ReplaceSwapsImageFile(s: Store, id: int, form: UpdateForm, file: Option<Upload>, digest: string,
                              moveOk: bool, selectThrows: bool, write: DbWrite)
    requires Consistent(s) && IsMd5Digest(digest) && Uploaded(file)
    requires NewFileName(digest, file.value) !in s.uploads
    requires UpdateOutcome(s, id, form, file, digest, moveOk, selectThrows, write).reply.success
    ensures var o := UpdateOutcome(s, id, form, file, digest, moveOk, selectThrows, write);
      && ImageFile(o.after.rows[id].imageUrl) == Some(NewFileName(digest, file.value))
      && NewFileName(digest, file.value) in o.after.uploads
      && (ImageFile(s.rows[id].imageUrl).Some? ==> ImageFile(s.rows[id].imageUrl).value !in o.after.uploads)
  {
    StoredUrlRoundTrip(digest, UploadExtension(file.value));
    var n := NewFileName(digest, file.value);
    if ImageFile(s.rows[id].imageUrl).Some? {
      assert ImageFile(s.rows[id].imageUrl).value in s.uploads;
    }
  }

  /** A successful removal clears the row's image and deletes its file. */
  lemma RemoveDeletesImageFile(s: Store, id: int, form: UpdateForm, file: Option<Upload>, digest: string,
                               moveOk: bool, selectThrows: bool, write: DbWrite)
    requires !Uploaded(file) && form.existingImageUrl == Some("")
    requires UpdateOutcome(s, id, form, file, digest, moveOk, selectThrows, write).reply.success
    ensures var o := UpdateOutcome(s, id, form, file, digest, moveOk, selectThrows, write);
      && o.after.rows[id].imageUrl.None?
      && (ImageFile(s.rows[id].imageUrl).Some? ==> ImageFile(s.rows[id].imageUrl).value !in o.after.uploads)
  {
    assert ChooseImage(form, file, digest) == Remove;
  }

  /** `deleteItem`: look the row up, delete it, and delete its image file only
      when the statement reports a deleted row. */
  function DeleteOutcome(s: Store, id: int, selectThrows: bool, write: DbWrite): (o: Step)
    ensures o.after.lastId == s.lastId
    ensures o.after.rows == s.rows || (id in s.rows && o.after.rows == s.rows - {id})
    ensures o.reply.success <==> !selectThrows && id in s.rows && write.Affected? && write.rowCount > 0
    ensures o.reply.success ==>
      && o.reply == Reply(true, MsgDeleted, None, 200)
      && o.after.rows == s.rows - {id}
      && o.after.uploads == s.uploads - SetOf(ImageFile(s.rows[id].imageUrl))
    ensures selectThrows ==> o == Step(Rejected(500, MsgDeleteFailed), s)
    ensures !selectThrows && id in s.rows && write.Throws? ==> o == Step(Rejected(500, MsgDeleteFailed), s)
    ensures !selectThrows && id in s.rows && write == Affected(0) ==>
      o == Step(Rejected(404, MsgDeleteVanished), s.(rows := s.rows - {id}))
    ensures !o.reply.success ==> o.after.uploads == s.uploads && o.reply.status in {404, 500}
    ensures !selectThrows && id !in s.rows ==> o == Step(Rejected(404, MsgDeleteNotFound), s)
    ensures IdsInRange(s) ==> IdsInRange(o.after)
  {
    if selectThrows then Step(Rejected(500, MsgDeleteFailed), s)
    else if id !in s.rows then Step(Rejected(404, MsgDeleteNotFound), s)
    else match write
      case Throws => Step(Rejected(500, MsgDeleteFailed), s)
      case Affected(count) =>
        if count > 0 then
          Step(Reply(true, MsgDeleted, None, 200),
               Store(s.rows - {id}, s.uploads - SetOf(ImageFile(s.rows[id].imageUrl)), s.lastId))
        else
          Step(Rejected(404, MsgDeleteVanished), s.(rows := s.rows - {id}))
  }

  /** A delete keeps every remaining image present and owned by one row. */
  lemma DeleteKeepsConsistent(s: Store, id: int, selectThrows: bool, write: DbWrite)
    requires Consistent(s)
    ensures Consistent(DeleteOutcome(s, id, selectThrows, write).after)
  {
    if !selectThrows && id in s.rows && write.Affected? {
      DeleteRowKeepsConsistent(s.rows, s.uploads, id);
    }
  }

  class ItemManager {
    var rows: map<int, Row>
    var uploads: set<string>
    var lastId: nat

    ghost function State(): Store
      reads this
    {
      Store(rows, uploads, lastId)
    }

    ghost predicate Valid()
      reads this
    {
      IdsInRange(State())
    }

    /** Binds the service to an existing table, upload directory and
        auto-increment sequence. */
    constructor (table: map<int, Row>, files: set<string>, sequence: nat)
      requires IdsInRange(Store(table, files, sequence))
      ensures Valid() && State() == Store(table, files, sequence)
    {
      rows, uploads, lastId := table, files, sequence;
    }

    /** Every row, as items, in descending id order; 500 when the query throws. */
    method GetAllItems(queryThrows: bool) returns (r: Listing)
      requires Valid()
      ensures queryThrows <==> r == ListFailed(MsgListFailed)
      ensures r.Listed? ==> r.items == ListedFrom(rows, lastId)
      ensures r.Listed? ==> DescendingIds(r.items) && |r.items| == |rows|
      ensures r.Listed? ==> forall i :: 0 <= i < |r.items| ==>
        r.items[i].id in rows && r.items[i] == ItemOf(r.items[i].id, rows[r.items[i].id])
      ensures r.Listed? ==> forall id :: id in rows ==> Lists(r.items, id)
    {
      if queryThrows {
        return ListFailed(MsgListFailed);
      }
      var table := rows;
      var out: seq<Item> := [];
      var k := lastId;
      while k > 0
        invariant 0 <= k <= lastId
        invariant out + ListedFrom(table, k) == ListedFrom(table, lastId)
      {
        if k in table {
          assert ListedFrom(table, k) == [ItemOf(k, table[k])] + ListedFrom(table, k - 1);
          out := out + [ItemOf(k, table[k])];
        }
        k := k - 1;
      }
      ListedFromRows(table, lastId);
      ListedFromCovers(table, lastId);
      ListedFromLength(table, lastId);
      r := Listed(out);
    }

    /** Validates, stores the image file, then inserts the row; a failed
        insert removes the stored file again. */
    method AddItem(form: AddForm, file: Option<Upload>, digest: string, moveOk: bool, insertThrows: bool)
      returns (reply: Reply)
      requires Valid()
      modifies this
      ensures Valid()
      ensures Step(reply, State()) == AddOutcome(old(State()), form, file, digest, moveOk, insertThrows)
    {
      var name := form.name.GetOr("");
      var description := form.description.GetOr("");
      if IsEmptyString(name) || IsEmptyString(description) || form.price.None? {
        return Rejected(400, MsgMissingFields);
      }
      if !form.price.value.isNumeric {
        return Rejected(400, MsgPriceNotNumber);
      }
      var price := form.price.value.asFloat;
      var imageUrl: Option<string> := None;
      var uploadedFile: Option<string> := None;
      if Uploaded(file) {
        var ext := UploadExtension(file.value);
        var newFileName := StoredFileName(digest, ext);
        match CheckImage(ext, file.value.size) {
          case BadType => return Rejected(400, MsgBadType);
          case TooLarge => return Rejected(400, MsgTooLarge);
          case Accepted =>
        }
        if moveOk {
          uploads := uploads + {newFileName};
          imageUrl := Some(StoredUrl(newFileName));
          uploadedFile := Some(newFileName);
        } else {
          return Rejected(500, MsgMoveFailed);
        }
      } else {
        return Rejected(400, MsgNoImage);
      }
      if insertThrows {
        if uploadedFile.Some? && uploadedFile.value in uploads {
          uploads := uploads - {uploadedFile.value};
        }
        return Rejected(500, MsgAddFailed);
      }
      lastId := lastId + 1;
      var newItemId := lastId;
      rows := rows[newItemId := Row(name, description, price, imageUrl)];
      reply := Reply(true, MsgAdded, Some(Item(newItemId, name, description, price, imageUrl)), 201);
    }

    /** The image step of an update: a valid upload is stored and replaces
        the image, an explicit empty `existingImageUrl` removes it, anything
        else keeps it; a replaced or removed image's file is marked for
        deletion when it exists. */
    method ApplyImagePolicy(currentImageUrl: Option<string>, form: UpdateForm, file: Option<Upload>,
                            digest: string, moveOk: bool)
      returns (step: ImageStep)
      modifies this`uploads
      ensures step == ImageStepOf(currentImageUrl, form, file, digest, moveOk, old(uploads))
      ensures uploads == old(uploads) + (if step.ImageApplied? then step.stored else {})
    {
      var newImageUrl := currentImageUrl;
      var oldImageFileToDelete: Option<string> := None;
      var stored: set<string> := {};
      if Uploaded(file) {
        var ext := UploadExtension(file.value);
        var newFileName := StoredFileName(digest, ext);
        if ext !in AllowedExtensions {
          assert CheckImage(ext, file.value.size) == BadType;
          return ImageRejected(Rejected(400, MsgUpdateBadType));
        }
        if file.value.size > MaxImageBytes {
          assert CheckImage(ext, file.value.size) == TooLarge;
          return ImageRejected(Rejected(400, MsgUpdateTooLarge));
        }
        assert CheckImage(ext, file.value.size) == Accepted;
        if moveOk {
          uploads := uploads + {newFileName};
          stored := {newFileName};
          newImageUrl := Some(StoredUrl(newFileName));
          var oldFile := ImageFile(currentImageUrl);
          if oldFile.Some? && oldFile.value in uploads {
            oldImageFileToDelete := oldFile;
          }
        } else {
          return ImageRejected(Rejected(500, MsgUpdateMoveFailed));
        }
      } else if form.existingImageUrl == Some("") {
        newImageUrl := None;
        var oldFile := ImageFile(currentImageUrl);
        if oldFile.Some? && oldFile.value in uploads {
          oldImageFileToDelete := oldFile;
        }
      } else {
        newImageUrl := currentImageUrl;
      }
      step := ImageApplied(newImageUrl, stored, oldImageFileToDelete);
    }

    /** Looks the row up, merges the fields, applies the image policy, writes
        the row and only then deletes the marked old file. */
    method UpdateItem(id: int, form: UpdateForm, file: Option<Upload>, digest: string,
                      moveOk: bool, selectThrows: bool, write: DbWrite)
      returns (reply: Reply)
      requires Valid()
      modifies this
      ensures Valid()
      ensures Step(reply, State()) == UpdateOutcome(old(State()), id, form, file, digest, moveOk, selectThrows, write)
    {
      if selectThrows {
        return Rejected(500, MsgUpdateFailed);
      }
      if id !in rows {
        return Rejected(404, MsgUpdateNotFound);
      }
      var existing := rows[id];
      var name := form.name.GetOr(existing.name);
      var description := form.description.GetOr(existing.description);
      var price := if form.price.Some? then form.price.value.asFloat else existing.price;
      var currentImageUrl := existing.imageUrl;
      var step := ApplyImagePolicy(currentImageUrl, form, file, digest, moveOk);
      if step.ImageRejected? {
        return step.reply;
      }
      var newImageUrl, oldImageFileToDelete := step.url, step.marked;
      match write
      case Throws =>
        return Rejected(500, MsgUpdateFailed);
      case Affected(count) =>
        rows := rows[id := Row(name, description, price, newImageUrl)];
        if count > 0 || newImageUrl != currentImageUrl {
          if oldImageFileToDelete.Some? && oldImageFileToDelete.value in uploads {
            uploads := uploads - {oldImageFileToDelete.value};
          }
          reply := Reply(true, MsgUpdated, Some(Item(id, name, description, price, newImageUrl)), 200);
        } else {
          reply := Rejected(200, MsgNoChanges);
        }
    }

    /** Captures the image URL, deletes the row, then deletes the file, but
        only when the statement reports a deleted row. */
    method DeleteItem(id: int, selectThrows: bool, write: DbWrite) returns (reply: Reply)
      requires Valid()
      modifies this
      ensures Valid()
      ensures Step(reply, State()) == DeleteOutcome(old(State()), id, selectThrows, write)
    {
      if selectThrows {
        return Rejected(500, MsgDeleteFailed);
      }
      if id !in rows {
        return Rejected(404, MsgDeleteNotFound);
      }
      var imageUrl := rows[id].imageUrl;
      match write
      case Throws =>
        return Rejected(500, MsgDeleteFailed);
      case Affected(count) =>
        rows := rows - {id};
        if count > 0 {
          var imageFile := ImageFile(imageUrl);
          if imageFile.Some? && imageFile.value in uploads {
            uploads := uploads - {imageFile.value};
          }
          reply := Reply(true, MsgDeleted, None, 200);
        } else {
          reply := Rejected(404, MsgDeleteVanished);
        }
    }
  }
}
