/** The flat-file backend of the front controller: the item list lives in one
    JSON file that every request reads, changes and writes back whole, and
    the images live in the upload directory, modelled as the set of names of
    the files in it. The outcome of reading, moving and writing files, the
    clock and the md5 digest of a new upload are inputs of each operation. */
module FlatFileApi {
  import opened Php
  import opened Media
  import Config
  import Auth

  /** A scalar JSON value or form field as PHP sees it: absent (or null), an
      integer, or a string. */
  datatype Scalar = Absent | IntVal(i: int) | StrVal(s: string)

  /** `(int)` applied to a scalar; an absent value is cast from the `?? 0`
      default (and `(int) null` is 0 as well). */
  function CastInt(v: Scalar): (r: int)
    ensures v.Absent? ==> r == 0
    ensures v.IntVal? ==> r == v.i
    ensures v.StrVal? ==> PhpIntMin <= r <= PhpIntMax
    ensures v.StrVal? && LeadingNumeral(v.s).None? ==> r == 0
  {
    match v
    case Absent => 0
    case IntVal(i) => i
    case StrVal(s) => StringToInt(s)
  }

  /** An element of the stored list. */
  datatype JsonItem = JsonItem(id: Scalar, name: string, description: string, price: real, imageUrl: Option<string>)

  /** The data file as the next read finds it: absent, present but not
      readable, not a JSON array, or a decoded list. */
  datatype DataFile = Missing | Unreadable | Malformed | Decoded(items: seq<JsonItem>)

  /** What `get_items` returns: the list (status 200) or an error (status 500). */
  datatype Loaded = Loaded(items: seq<JsonItem>) | LoadError(error: string) {
    function Status(): int {
      if Loaded? then 200 else 500
    }
  }

  /** The JSON bodies the endpoints answer with, each with its HTTP status. */
  datatype ApiReply =
    | Outcome(status: int, success: bool, message: string, item: Option<JsonItem>)
    | ErrorBody(status: int, error: string)
    | ItemList(status: int, items: seq<JsonItem>)
    | AuthBody(status: int, authenticated: bool, message: string)

  /** The request method. */
  datatype Verb = Get | Post | Delete | OtherVerb

  /** The files of the service: the data file and the upload directory. */
  datatype Disk = Disk(data: DataFile, uploads: set<string>)

  /** The reply of a request and the files after it. */
  datatype Step = Step(reply: ApiReply, after: Disk)

  const MsgReadFailed: string := "Failed to read items file."
  const MsgInvalidJson: string := "Invalid JSON data in items file."
  const MsgMethodNotAllowed: string := "Method Not Allowed"
  const MsgMissingFields: string := "Missing required item fields (name, description, price)."
  const MsgPriceNotNumber: string := "Price must be a number."
  const MsgBadType: string := "Invalid file type. Only JPG, JPEG, PNG, GIF allowed."
  const MsgTooLarge: string := "File size exceeds limit (5MB)."
  const MsgMoveFailed: string := "Failed to move uploaded file. Check permissions."
  const MsgNoImage: string := "No image file uploaded for new item."
  const MsgAdded: string := "Item added successfully!"
  const MsgWriteFailed: string := "Failed to write data to file. Check permissions."
  const MsgDeleteNeedsId: string := "Item ID is required for deletion."
  const MsgDeleteNotFound: string := "Item not found."
  const MsgDeleted: string := "Item deleted successfully!"
  const MsgDeleteSaveFailed: string := "Failed to save updated items."
  const MsgUpdateNeedsId: string := "Item ID is required for update."
  const MsgUpdateBadType: string := "Invalid file type for new image. Only JPG, JPEG, PNG, GIF allowed."
  const MsgUpdateTooLarge: string := "New image file size exceeds limit (5MB)."
  const MsgUpdateMoveFailed: string := "Failed to move new uploaded file. Check permissions."
  const MsgUpdateNotFound: string := "Item to update not found."
  const MsgUpdated: string := "Item updated successfully!"
  const MsgUpdateSaveFailed: string := "Failed to save updated items. Check permissions."

  const MethodNotAllowed: ApiReply := ErrorBody(405, MsgMethodNotAllowed)

  function Failed(status: int, message: string): ApiReply {
    Outcome(status, false, message, None)
  }

  // ---------------------------------------------------------------------
  // Reading and writing the list

  /** One element as `get_items` leaves it: a present id becomes an integer. */
  function CastItem(item: JsonItem): JsonItem {
    if item.id.Absent? then item else item.(id := IntVal(CastInt(item.id)))
  }

  /** The list `get_items` returns for a decoded file: only ids change, each
      present id becomes its integer value and an absent one stays absent. */
  function CastIds(items: seq<JsonItem>): (r: seq<JsonItem>)
    ensures |r| == |items|
    ensures forall i :: 0 <= i < |r| ==> r[i].(id := items[i].id) == items[i]
    ensures forall i :: 0 <= i < |r| ==> (r[i].id.Absent? <==> items[i].id.Absent?)
    ensures forall i :: 0 <= i < |r| ==> !r[i].id.StrVal?
    ensures forall i :: 0 <= i < |r| && !items[i].id.Absent? ==> r[i].id == IntVal(CastInt(items[i].id))
  {
    seq(|items|, i requires 0 <= i < |items| => CastItem(items[i]))
  }

  /** Every id is an integer or absent, as after a read. */
  predicate IdsCast(items: seq<JsonItem>) {
    forall i :: 0 <= i < |items| ==> !items[i].id.StrVal?
  }

  /** `get_items`: a missing file is an empty list; an unreadable file and a
      file that is not a JSON array are errors with status 500. */
  function LoadOf(d: DataFile): (r: Loaded)
    ensures r.Status() == 200 <==> d.Missing? || d.Decoded?
    ensures d.Missing? ==> r == Loaded([])
    ensures d.Unreadable? ==> r == LoadError(MsgReadFailed)
    ensures d.Malformed? ==> r == LoadError(MsgInvalidJson)
    ensures d.Decoded? ==> r == Loaded(CastIds(d.items)) && |r.items| == |d.items| && IdsCast(r.items)
  {
    match d
    case Missing => Loaded([])
    case Unreadable => LoadError(MsgReadFailed)
    case Malformed => LoadError(MsgInvalidJson)
    case Decoded(items) => Loaded(CastIds(items))
  }

  /** The list a read returns, or nothing when the read fails. */
  function ListRead(d: DataFile): seq<JsonItem> {
    if LoadOf(d).Loaded? then LoadOf(d).items else []
  }

  /** A list whose ids are already integers reads back unchanged, so a list
      that was read, changed and written is what the next read returns. */
  lemma SavedListReloads(items: seq<JsonItem>)
    requires IdsCast(items)
    ensures LoadOf(Decoded(items)) == Loaded(items)
  {
    var r := CastIds(items);
    forall i | 0 <= i < |items| ensures r[i] == items[i] {
      if !items[i].id.Absent? {
        assert items[i].id.IntVal?;
      }
    }
  }

  /** Reading twice casts nothing more. */
  lemma CastIdsIdempotent(items: seq<JsonItem>)
    ensures CastIds(CastIds(items)) == CastIds(items)
  {
    SavedListReloads(CastIds(items));
  }

  // ---------------------------------------------------------------------
  // The admin gate

  /** The authentication endpoint: a POST succeeds exactly when the
      `password` of the body is the string "1234"; a missing password counts
      as "" and a value of another JSON type never matches. */
  function AdminAuthEndpoint(verb: Verb, password: Scalar): (r: ApiReply)
    ensures verb != Post ==> r == MethodNotAllowed
    ensures verb == Post ==>
      && r.AuthBody?
      && (r.authenticated <==> password == StrVal(Config.AdminPasswordSecret))
      && r.status == (if r.authenticated then 200 else 401)
      && r.message == (if r.authenticated then Auth.MsgAuthenticated else Auth.MsgInvalidPassword)
  {
    if verb != Post then MethodNotAllowed
    else
      var p := if password.Absent? then StrVal("") else password;
      if p == StrVal(Config.AdminPasswordSecret) then AuthBody(200, true, Auth.MsgAuthenticated)
      else AuthBody(401, false, Auth.MsgInvalidPassword)
  }

  /** For a string password the endpoint decides as the authentication
      manager does, and it refuses the number 1234 and a missing password. */
  lemma AdminAuthAgreesWithManager(password: string)
    ensures var r := AdminAuthEndpoint(Post, StrVal(password));
      r.authenticated == Auth.Authenticate(password).authenticated
      && r.message == Auth.Authenticate(password).message
    ensures !AdminAuthEndpoint(Post, IntVal(1234)).authenticated
    ensures !AdminAuthEndpoint(Post, Absent).authenticated
  {
  }

  // ---------------------------------------------------------------------
  // Listing

  /** The list endpoint: a GET answers the list `get_items` read, or its error. */
  function ListReply(verb: Verb, d: DataFile): (r: ApiReply)
    ensures verb != Get ==> r == MethodNotAllowed
    ensures verb == Get && LoadOf(d).Loaded? ==> r == ItemList(200, LoadOf(d).items)
    ensures verb == Get && LoadOf(d).LoadError? ==> r == ErrorBody(500, LoadOf(d).error)
  {
    if verb != Get then MethodNotAllowed
    else match LoadOf(d)
      case Loaded(items) => ItemList(200, items)
      case LoadError(e) => ErrorBody(500, e)
  }

  // ---------------------------------------------------------------------
  // Adding

  /** The form fields of an add request (`id` overrides the clock). */
  datatype AddForm = AddForm(id: Option<string>, name: Option<string>, description: Option<string>,
                             price: Option<NumericField>)

  /** The price of an add request: a missing price defaults to 0, which is numeric. */
  function PostedPrice(form: AddForm): NumericField {
    form.price.GetOr(NumericField(true, 0.0))
  }

  /** The extension of an add upload: the last dot-separated segment, lower-cased. */
  function AddExtension(u: Upload): string {
    ToLower(LastDotSegment(u.clientName))
  }

  /** The reply of the first failing check of an add request, in the order
      name and description, price, image present, image type, image size;
      None when all pass. Since a missing price defaults to 0, the price is
      never reported missing. */
  function AddRejection(form: AddForm, file: Option<Upload>): (r: Option<ApiReply>)
    ensures r.None? <==>
      !IsEmptyString(form.name.GetOr("")) && !IsEmptyString(form.description.GetOr(""))
      && PostedPrice(form).isNumeric && Uploaded(file)
      && CheckImage(AddExtension(file.value), file.value.size) == Accepted
    ensures r.Some? ==> r.value.Outcome? && r.value.status == 400 && !r.value.success && r.value.item.None?
    ensures IsEmptyString(form.name.GetOr("")) || IsEmptyString(form.description.GetOr("")) ==>
      r == Some(Failed(400, MsgMissingFields))
    ensures form.price.None? ==> r != Some(Failed(400, MsgPriceNotNumber))
    ensures (!IsEmptyString(form.name.GetOr("")) && !IsEmptyString(form.description.GetOr(""))
             && !PostedPrice(form).isNumeric) ==> r == Some(Failed(400, MsgPriceNotNumber))
    ensures (!IsEmptyString(form.name.GetOr("")) && !IsEmptyString(form.description.GetOr(""))
             && PostedPrice(form).isNumeric && !Uploaded(file)) ==> r == Some(Failed(400, MsgNoImage))
    ensures (!IsEmptyString(form.name.GetOr("")) && !IsEmptyString(form.description.GetOr(""))
             && PostedPrice(form).isNumeric && Uploaded(file)) ==>
      && (CheckImage(AddExtension(file.value), file.value.size) == BadType ==> r == Some(Failed(400, MsgBadType)))
      && (CheckImage(AddExtension(file.value), file.value.size) == TooLarge ==> r == Some(Failed(400, MsgTooLarge)))
  {
    if IsEmptyString(form.name.GetOr("")) || IsEmptyString(form.description.GetOr("")) then
      Some(Failed(400, MsgMissingFields))
    else if !PostedPrice(form).isNumeric then Some(Failed(400, MsgPriceNotNumber))
    else if !Uploaded(file) then Some(Failed(400, MsgNoImage))
    else match CheckImage(AddExtension(file.value), file.value.size)
      case BadType => Some(Failed(400, MsgBadType))
      case TooLarge => Some(Failed(400, MsgTooLarge))
      case Accepted => None
  }

  /** The item an add request creates, pointing at the stored image `url`.
      Its id is the posted id cast by `(int)`, or the clock in milliseconds
      when none is posted; it is not checked against the list, so a posted
      id can repeat one already stored, and a posted id that is not a
      number becomes 0. */
  function NewItem(form: AddForm, nowMillis: int, url: string): (r: JsonItem)
    ensures r.id.IntVal?
    ensures form.id.None? ==> r.id.i == nowMillis
    ensures form.id.Some? ==> PhpIntMin <= r.id.i <= PhpIntMax
    ensures form.id.Some? && LeadingNumeral(form.id.value).None? ==> r.id.i == 0
    ensures r.name == form.name.GetOr("") && r.description == form.description.GetOr("")
    ensures r.price == PostedPrice(form).asFloat
    ensures r.imageUrl == Some(url)
  {
    var id := if form.id.Some? then StringToInt(form.id.value) else nowMillis;
    JsonItem(IntVal(id), form.name.GetOr(""), form.description.GetOr(""), PostedPrice(form).asFloat, Some(url))
  }

  /** A posted id that is not a number gives the new item the id 0. */
  lemma NewItemIdNotNumeric(form: AddForm, nowMillis: int, url: string)
    requires form.id == Some("abc")
    ensures NewItem(form, nowMillis, url).id == IntVal(0)
  {
    StringToIntWithoutNumber();
  }

  /** Nothing keeps ids unique: adding an item with the posted id "42" to a
      list that already holds id 42 leaves two items with that id. */
  lemma AddMayDuplicateId(s: Disk, verb: Verb, form: AddForm, file: Option<Upload>, digest: string,
                          nowMillis: int, moveOk: bool, saveOk: bool)
    requires form.id == Some("42") && HasId(ListRead(s.data), 42)
    requires AddOutcome(s, verb, form, file, digest, nowMillis, moveOk, saveOk).reply.Outcome?
    requires AddOutcome(s, verb, form, file, digest, nowMillis, moveOk, saveOk).reply.success
    ensures var after := AddOutcome(s, verb, form, file, digest, nowMillis, moveOk, saveOk).after.data.items;
      exists j, k :: 0 <= j < k < |after| && Matches(after[j], 42) && Matches(after[k], 42)
  {
    var before := ListRead(s.data);
    var after := AddOutcome(s, verb, form, file, digest, nowMillis, moveOk, saveOk).after.data.items;
    AddAppendsAtEnd(s, verb, form, file, digest, nowMillis, moveOk, saveOk);
    HasIdSpec(before, 42);
    var j :| 0 <= j < |before| && Matches(before[j], 42);
    assert after[j] == after[..|before|][j] == before[j];
    StringToIntReadsDigits();
    assert Matches(after[|before|], 42);
  }

  /** The add endpoint: validate, move the image into the upload directory,
      read the list, append the new item and write the list back. The image
      is moved before the list is read, so a failed read or write leaves it
      behind. */
  function AddOutcome(s: Disk, verb: Verb, form: AddForm, file: Option<Upload>, digest: string,
                      nowMillis: int, moveOk: bool, saveOk: bool): (o: Step)
    ensures o.reply.Outcome? && o.reply.success <==>
      verb == Post && AddRejection(form, file).None? && moveOk && LoadOf(s.data).Loaded? && saveOk
    ensures o.after.data == s.data || (o.reply.Outcome? && o.reply.success)
    ensures o.after.uploads == s.uploads
      || (Uploaded(file) && moveOk && o.after.uploads == s.uploads + {StoredFileName(digest, AddExtension(file.value))})
  {
    if verb != Post then Step(MethodNotAllowed, s)
    else match AddRejection(form, file)
      case Some(r) => Step(r, s)
      case None =>
        if !moveOk then Step(Failed(500, MsgMoveFailed), s)
        else
          var n := StoredFileName(digest, AddExtension(file.value));
          var files := s.uploads + {n};
          var item := NewItem(form, nowMillis, StoredUrl(n));
          match LoadOf(s.data)
          case LoadError(e) => Step(ErrorBody(500, e), s.(uploads := files))
          case Loaded(items) =>
            if saveOk then Step(Outcome(200, true, MsgAdded, Some(item)), Disk(Decoded(items + [item]), files))
            else Step(Failed(500, MsgWriteFailed), s.(uploads := files))
  }

  /** The failures of an add after validation: a method other than POST
      gets 405, a failed move 500 with nothing changed; an unreadable list
      and a failed write answer 500 and leave the list as it was, but the
      moved upload stays in the upload directory. */
  lemma AddFailureReplies(s: Disk, verb: Verb, form: AddForm, file: Option<Upload>, digest: string,
                          nowMillis: int, moveOk: bool, saveOk: bool)
    ensures var o := AddOutcome(s, verb, form, file, digest, nowMillis, moveOk, saveOk);
      && (verb != Post ==> o == Step(MethodNotAllowed, s))
      && (verb == Post && AddRejection(form, file).None? ==>
            var moved := s.(uploads := s.uploads + {StoredFileName(digest, AddExtension(file.value))});
            && (!moveOk ==> o == Step(Failed(500, MsgMoveFailed), s))
            && (moveOk && LoadOf(s.data).LoadError? ==> o == Step(ErrorBody(500, LoadOf(s.data).error), moved))
            && (moveOk && LoadOf(s.data).Loaded? && !saveOk ==> o == Step(Failed(500, MsgWriteFailed), moved)))
  {
  }

  /** A successful add appends exactly the new item, after every item read,
      which keep their values and their order; its image is the stored
      upload. Every validation failure changes nothing, and a failed read
      or write leaves the list as it was. */
  lemma AddAppendsAtEnd(s: Disk, verb: Verb, form: AddForm, file: Option<Upload>, digest: string,
                        nowMillis: int, moveOk: bool, saveOk: bool)
    ensures var o := AddOutcome(s, verb, form, file, digest, nowMillis, moveOk, saveOk);
      && (verb == Post && AddRejection(form, file).Some? ==> o == Step(AddRejection(form, file).value, s))
      && (o.reply.Outcome? && o.reply.success ==>
            var before := ListRead(s.data);
            var n := StoredFileName(digest, AddExtension(file.value));
            && o.after.data.Decoded?
            && |o.after.data.items| == |before| + 1
            && o.after.data.items[..|before|] == before
            && o.after.data.items[|before|] == NewItem(form, nowMillis, StoredUrl(n))
            && o.reply == Outcome(200, true, MsgAdded, Some(o.after.data.items[|before|]))
            && o.after.uploads == s.uploads + {n}
            && ImageFile(o.after.data.items[|before|].imageUrl) == Some(Basename(StoredUrl(n))))
      && (!(o.reply.Outcome? && o.reply.success) ==> o.after.data == s.data)
  {
    var o := AddOutcome(s, verb, form, file, digest, nowMillis, moveOk, saveOk);
    if o.reply.Outcome? && o.reply.success {
      var before := ListRead(s.data);
      var n := StoredFileName(digest, AddExtension(file.value));
      assert o.after.data.items == before + [NewItem(form, nowMillis, StoredUrl(n))];
      assert (before + [NewItem(form, nowMillis, StoredUrl(n))])[..|before|] == before;
    }
  }

  // ---------------------------------------------------------------------
  // Deleting

  /** `$item['id'] === $target`: only an integer id can match. */
  predicate Matches(item: JsonItem, target: int) {
    item.id == IntVal(target)
  }

  /** Some item has the target id. */
  predicate HasId(items: seq<JsonItem>, target: int)
    decreases |items|
  {
    items != [] && (Matches(items[|items| - 1], target) || HasId(items[..|items| - 1], target))
  }

  /** The list without the items whose id is the target, in their order. */
  function Without(items: seq<JsonItem>, target: int): (r: seq<JsonItem>)
    ensures |r| <= |items|
    decreases |items|
  {
    if items == [] then []
    else
      var last := items[|items| - 1];
      Without(items[..|items| - 1], target) + (if Matches(last, target) then [] else [last])
  }

  /** The image file of the last matching item that has one, which is the
      one whose path the delete loop keeps. */
  function LastImage(items: seq<JsonItem>, target: int): (f: Option<string>)
    ensures f.Some? ==> HasId(items, target)
    decreases |items|
  {
    if items == [] then None
    else
      var last := items[|items| - 1];
      if Matches(last, target) && ImageFile(last.imageUrl).Some? then ImageFile(last.imageUrl)
      else LastImage(items[..|items| - 1], target)
  }

  /** `HasId` is "some position holds the target id". */
  lemma {:induction false} HasIdSpec(items: seq<JsonItem>, target: int)
    ensures HasId(items, target) <==> exists i :: 0 <= i < |items| && Matches(items[i], target)
    decreases |items|
  {
    if items != [] {
      var front := items[..|items| - 1];
      HasIdSpec(front, target);
      if HasId(front, target) {
        var i :| 0 <= i < |front| && Matches(front[i], target);
        assert items[i] == front[i];
      }
      if exists i :: 0 <= i < |items| && Matches(items[i], target) {
        var i :| 0 <= i < |items| && Matches(items[i], target);
        if i < |front| {
          assert front[i] == items[i];
        }
      }
    }
  }

  /** Filtering keeps exactly the items without the target id: every kept
      item was in the list, none of them matches, and every non-matching
      item is kept. */
  lemma {:induction false} WithoutKeepsExactlyOthers(items: seq<JsonItem>, target: int)
    ensures forall x :: x in Without(items, target) <==> x in items && !Matches(x, target)
    decreases |items|
  {
    if items != [] {
      var front := items[..|items| - 1];
      var last := items[|items| - 1];
      WithoutKeepsExactlyOthers(front, target);
      assert items == front + [last];
      assert forall x :: x in items <==> x in front || x == last;
    }
  }

  /** Filtering distributes over concatenation, so the kept items stay in
      their original order. */
  lemma {:induction false} WithoutOfConcat(a: seq<JsonItem>, b: seq<JsonItem>, target: int)
    ensures Without(a + b, target) == Without(a, target) + Without(b, target)
    decreases |b|
  {
    if b == [] {
      assert a + b == a;
    } else {
      var front := b[..|b| - 1];
      var last := b[|b| - 1];
      assert (a + b)[..|a + b| - 1] == a + front;
      assert (a + b)[|a + b| - 1] == last;
      WithoutOfConcat(a, front, target);
    }
  }

  /** Without a matching item, filtering changes nothing. */
  lemma {:induction false} WithoutNoMatch(items: seq<JsonItem>, target: int)
    requires !HasId(items, target)
    ensures Without(items, target) == items
    decreases |items|
  {
    if items != [] {
      var front := items[..|items| - 1];
      var last := items[|items| - 1];
      assert !Matches(last, target) && !HasId(front, target);
      WithoutNoMatch(front, target);
      assert Without(items, target) == front + [last];
      assert items == front + [last];
    }
  }

  /** The delete endpoint: a DELETE with a non-zero id reads the list, drops
      every item with that id, writes the list and only then unlinks the
      image of the last dropped item that had one. */
  function DeleteOutcome(s: Disk, verb: Verb, requestId: Scalar, saveOk: bool): (o: Step)
    ensures o.reply.Outcome? && o.reply.success <==>
      verb == Delete && CastInt(requestId) != 0 && LoadOf(s.data).Loaded?
      && HasId(LoadOf(s.data).items, CastInt(requestId)) && saveOk
    ensures !(o.reply.Outcome? && o.reply.success) ==> o.after == s
    ensures verb == Delete && CastInt(requestId) == 0 ==> o.reply == Failed(400, MsgDeleteNeedsId)
    ensures (verb == Delete && CastInt(requestId) != 0 && LoadOf(s.data).Loaded?
             && !HasId(LoadOf(s.data).items, CastInt(requestId))) ==> o.reply == Failed(404, MsgDeleteNotFound)
    ensures verb != Delete ==> o == Step(MethodNotAllowed, s)
    ensures verb == Delete && CastInt(requestId) != 0 && LoadOf(s.data).LoadError? ==>
      o == Step(ErrorBody(500, LoadOf(s.data).error), s)
    ensures (verb == Delete && CastInt(requestId) != 0 && LoadOf(s.data).Loaded?
             && HasId(LoadOf(s.data).items, CastInt(requestId)) && !saveOk) ==>
      o == Step(Failed(500, MsgDeleteSaveFailed), s)
    ensures o.reply.Outcome? && o.reply.success ==>
      var t := CastInt(requestId);
      && o.after.data == Decoded(Without(LoadOf(s.data).items, t))
      && o.after.uploads == s.uploads - SetOf(LastImage(LoadOf(s.data).items, t))
  {
    if verb != Delete then Step(MethodNotAllowed, s)
    else
      var t := CastInt(requestId);
      if t == 0 then Step(Failed(400, MsgDeleteNeedsId), s)
      else match LoadOf(s.data)
        case LoadError(e) => Step(ErrorBody(500, e), s)
        case Loaded(items) =>
          if !HasId(items, t) then Step(Failed(404, MsgDeleteNotFound), s)
          else if !saveOk then Step(Failed(500, MsgDeleteSaveFailed), s)
          else Step(Outcome(200, true, MsgDeleted, None),
                    Disk(Decoded(Without(items, t)), s.uploads - SetOf(LastImage(items, t))))
  }

  /** After a successful delete no item with the id remains, every other
      item does, and the list shrank by at least one; the only file removed
      is the image of a deleted item. */
  lemma DeleteRemovesEveryMatch(s: Disk, verb: Verb, requestId: Scalar, saveOk: bool)
    requires DeleteOutcome(s, verb, requestId, saveOk).reply.Outcome?
    requires DeleteOutcome(s, verb, requestId, saveOk).reply.success
    ensures var o := DeleteOutcome(s, verb, requestId, saveOk);
      var before := ListRead(s.data);
      var t := CastInt(requestId);
      && (forall x :: x in o.after.data.items <==> x in before && !Matches(x, t))
      && |o.after.data.items| < |before|
      && s.uploads - o.after.uploads <= SetOf(LastImage(before, t))
      && (LastImage(before, t).Some? ==>
            exists i :: 0 <= i < |before| && Matches(before[i], t) && ImageFile(before[i].imageUrl) == LastImage(before, t))
  {
    var before := ListRead(s.data);
    var t := CastInt(requestId);
    WithoutKeepsExactlyOthers(before, t);
    WithoutShrinks(before, t);
    LastImageOfMatch(before, t);
  }

  /** Filtering out a present id shortens the list. */
  lemma {:induction false} WithoutShrinks(items: seq<JsonItem>, target: int)
    requires HasId(items, target)
    ensures |Without(items, target)| < |items|
    decreases |items|
  {
    var front := items[..|items| - 1];
    if !Matches(items[|items| - 1], target) {
      WithoutShrinks(front, target);
    }
  }

  /** The unlinked image belongs to an item with the deleted id. */
  lemma {:induction false} LastImageOfMatch(items: seq<JsonItem>, target: int)
    ensures LastImage(items, target).Some? ==>
      exists i :: 0 <= i < |items| && Matches(items[i], target) && ImageFile(items[i].imageUrl) == LastImage(items, target)
    decreases |items|
  {
    if items != [] {
      var front := items[..|items| - 1];
      var last := items[|items| - 1];
      if !(Matches(last, target) && ImageFile(last.imageUrl).Some?) {
        LastImageOfMatch(front, target);
        if LastImage(front, target).Some? {
          var i :| 0 <= i < |front| && Matches(front[i], target) && ImageFile(front[i].imageUrl) == LastImage(front, target);
          assert items[i] == front[i];
        }
      }
    }
  }

  // ---------------------------------------------------------------------
  // Updating

  /** The form fields of an update request. */
  datatype UpdateForm = UpdateForm(name: Option<string>, description: Option<string>,
                                   price: Option<NumericField>, existingImageUrl: Option<string>)

  /** The position of the first item with the target id; |items| when none has it. */
  function FirstIndex(items: seq<JsonItem>, target: int): (r: nat)
    ensures r <= |items|
    ensures forall j :: 0 <= j < r ==> !Matches(items[j], target)
    ensures r < |items| ==> Matches(items[r], target)
    decreases |items|
  {
    if items == [] then 0
    else if Matches(items[0], target) then 0
    else 1 + FirstIndex(items[1..], target)
  }

  /** The extension of an update upload: `pathinfo`'s extension, lower-cased. */
  function UpdateExtension(u: Upload): string {
    ToLower(PathInfoExtension(u.clientName))
  }

  /** The file the removal branch marks for deletion, as intended: the
      item's current image file, read before the URL is cleared. */
  function RemovalMark(item: JsonItem): (f: Option<string>)
    ensures f.Some? <==> Truthy(item.imageUrl)
    ensures f.Some? ==> f.value == Basename(item.imageUrl.value)
  {
    ImageFile(item.imageUrl)
  }

  /** The file the removal branch marks as the code is written: the URL is
      set to null first and checked afterwards, so nothing is ever marked. */
  function RemovalMarkAsWritten(item: JsonItem): (f: Option<string>)
    ensures f.None?
  {
    var cleared := item.(imageUrl := None);
    if Truthy(cleared.imageUrl) then ImageFile(cleared.imageUrl) else None
  }

  /** An item with an image shows the difference: the written removal branch
      marks nothing, so the old file stays in the upload directory after the
      URL is cleared, while the intended one marks it. */
  lemma RemovalMarkAsWrittenMissesImage()
    ensures var item := JsonItem(IntVal(7), "Lamp", "Desk lamp", 12.0, Some("/uploads/a.png"));
      && RemovalMarkAsWritten(item) == None
      && RemovalMark(item) == Some("a.png")
  {
    var item := JsonItem(IntVal(7), "Lamp", "Desk lamp", 12.0, Some("/uploads/a.png"));
    assert "/uploads/a.png" == Config.UploadDirRelative + "a.png";
    BasenameOfJoin(Config.UploadDirRelative, "a.png");
  }

  /** Which removal branch an update runs: the branch as written, which
      tests the URL after clearing it, or the intended one, which marks the
      file of the URL being cleared. */
  datatype RemovalBranch = AsWritten | Intended

  /** The file the removal branch marks, in the given branch. */
  function RemovalMarkIn(branch: RemovalBranch, item: JsonItem): (f: Option<string>)
    ensures branch == AsWritten ==> f.None?
    ensures branch == Intended ==> f == ImageFile(item.imageUrl)
  {
    match branch
    case AsWritten => RemovalMarkAsWritten(item)
    case Intended => RemovalMark(item)
  }

  /** How the matched item's edit ended: rejected with a reply, or the
      edited item, the files stored for it and the file marked for deletion. */
  datatype Edit = EditRejected(reply: ApiReply) | Edited(item: JsonItem, stored: set<string>, marked: Option<string>)

  /** The edit of the matched item: posted fields replace stored ones (an
      absent field keeps its value); then a valid upload replaces the image
      and marks the old file, a posted `existingImageUrl` is taken verbatim,
      and otherwise the image is cleared and, in the intended removal
      branch only, its file marked. */
  function EditOf(item: JsonItem, form: UpdateForm, file: Option<Upload>, digest: string, moveOk: bool,
                  branch: RemovalBranch): (e: Edit)
    ensures e.EditRejected? <==>
      Uploaded(file) && (CheckImage(UpdateExtension(file.value), file.value.size) != Accepted || !moveOk)
    ensures e.EditRejected? ==> e.reply.Outcome? && !e.reply.success && e.reply.status in {400, 500}
  {
    var merged := item.(name := form.name.GetOr(item.name),
                        description := form.description.GetOr(item.description),
                        price := if form.price.Some? then form.price.value.asFloat else item.price);
    if Uploaded(file) then
      var ext := UpdateExtension(file.value);
      match CheckImage(ext, file.value.size)
      case BadType => EditRejected(Failed(400, MsgUpdateBadType))
      case TooLarge => EditRejected(Failed(400, MsgUpdateTooLarge))
      case Accepted =>
        if !moveOk then EditRejected(Failed(500, MsgUpdateMoveFailed))
        else
          var n := StoredFileName(digest, ext);
          Edited(merged.(imageUrl := Some(StoredUrl(n))), {n}, ImageFile(item.imageUrl))
    else if form.existingImageUrl.Some? then Edited(merged.(imageUrl := form.existingImageUrl), {}, None)
    else Edited(merged.(imageUrl := None), {}, RemovalMarkIn(branch, item))
  }

  /** An upload is refused in order: a bad type and then a size over the
      limit with 400, then a failed move with 500. */
  lemma EditRejections(item: JsonItem, form: UpdateForm, file: Option<Upload>, digest: string, moveOk: bool,
                       branch: RemovalBranch)
    requires Uploaded(file)
    ensures var e := EditOf(item, form, file, digest, moveOk, branch);
      var check := CheckImage(UpdateExtension(file.value), file.value.size);
      && (check == BadType ==> e == EditRejected(Failed(400, MsgUpdateBadType)))
      && (check == TooLarge ==> e == EditRejected(Failed(400, MsgUpdateTooLarge)))
      && (check == Accepted && !moveOk ==> e == EditRejected(Failed(500, MsgUpdateMoveFailed)))
  {
  }

  /** An edit keeps the id, takes each posted field and keeps each absent
      one, and applies the image policy: a stored upload replaces the URL
      and marks the old file, a posted `existingImageUrl` is taken verbatim
      and marks nothing, and otherwise the URL is cleared; the removal branch
      as written then marks nothing, the intended one marks the old file. */
  lemma EditMergesFields(item: JsonItem, form: UpdateForm, file: Option<Upload>, digest: string, moveOk: bool,
                         branch: RemovalBranch)
    ensures var e := EditOf(item, form, file, digest, moveOk, branch);
      && (e.Edited? ==>
            && e.item.id == item.id
            && e.item.name == form.name.GetOr(item.name)
            && e.item.description == form.description.GetOr(item.description)
            && e.item.price == (if form.price.Some? then form.price.value.asFloat else item.price))
      && (e.Edited? && Uploaded(file) ==>
            var n := StoredFileName(digest, UpdateExtension(file.value));
            e.item.imageUrl == Some(StoredUrl(n)) && e.stored == {n} && e.marked == ImageFile(item.imageUrl))
      && (e.Edited? && !Uploaded(file) ==> e.stored == {})
      && (e.Edited? && !Uploaded(file) && form.existingImageUrl.Some? ==>
            e.item.imageUrl == form.existingImageUrl && e.marked == None)
      && (e.Edited? && !Uploaded(file) && form.existingImageUrl.None? ==>
            && e.item.imageUrl == None
            && (branch == AsWritten ==> e.marked == None)
            && (branch == Intended ==> e.marked == ImageFile(item.imageUrl)))
  {
  }

  /** The update endpoint: a POST with a non-zero id reads the list, edits
      the first item with that id only, writes the list and only then
      unlinks the marked old image. */
  function UpdateOutcome(s: Disk, verb: Verb, requestId: Scalar, form: UpdateForm, file: Option<Upload>,
                         digest: string, moveOk: bool, saveOk: bool, branch: RemovalBranch): (o: Step)
    ensures o.reply.Outcome? && o.reply.success <==>
      verb == Post && CastInt(requestId) != 0 && LoadOf(s.data).Loaded?
      && FirstIndex(LoadOf(s.data).items, CastInt(requestId)) < |LoadOf(s.data).items|
      && EditOf(LoadOf(s.data).items[FirstIndex(LoadOf(s.data).items, CastInt(requestId))],
                form, file, digest, moveOk, branch).Edited?
      && saveOk
    ensures !(o.reply.Outcome? && o.reply.success) ==> o.after.data == s.data
  {
    if verb != Post then Step(MethodNotAllowed, s)
    else
      var t := CastInt(requestId);
      if t == 0 then Step(Failed(400, MsgUpdateNeedsId), s)
      else match LoadOf(s.data)
        case LoadError(e) => Step(ErrorBody(500, e), s)
        case Loaded(items) =>
          var i := FirstIndex(items, t);
          if i == |items| then Step(Failed(404, MsgUpdateNotFound), s)
          else match EditOf(items[i], form, file, digest, moveOk, branch)
            case EditRejected(r) => Step(r, s)
            case Edited(item, stored, marked) =>
              SaveEdited(s.(uploads := s.uploads + stored), items[i := item], item, marked, saveOk)
  }

  /** The end of an update once the matched item is edited: write the list,
      then unlink the marked file, or answer 500 and unlink nothing. */
  function SaveEdited(s: Disk, list: seq<JsonItem>, item: JsonItem, marked: Option<string>, saveOk: bool): Step {
    if saveOk then Step(Outcome(200, true, MsgUpdated, Some(item)), Disk(Decoded(list), s.uploads - SetOf(marked)))
    else Step(Failed(500, MsgUpdateSaveFailed), s)
  }

  /** A successful update rewrites only the first item with the id and
      keeps every other item and the order; the id 0 is refused, an absent
      id is reported and nothing is written in either case. */
  lemma UpdateTouchesOnlyFirstMatch(s: Disk, verb: Verb, requestId: Scalar, form: UpdateForm,
                                    file: Option<Upload>, digest: string, moveOk: bool, saveOk: bool,
                                    branch: RemovalBranch)
    ensures var o := UpdateOutcome(s, verb, requestId, form, file, digest, moveOk, saveOk, branch);
      var t := CastInt(requestId);
      var before := ListRead(s.data);
      && (verb == Post && t == 0 ==> o == Step(Failed(400, MsgUpdateNeedsId), s))
      && (verb == Post && t != 0 && LoadOf(s.data).Loaded? && !HasId(before, t) ==>
            o == Step(Failed(404, MsgUpdateNotFound), s))
      && (o.reply.Outcome? && o.reply.success ==>
            var i := FirstIndex(before, t);
            && o.after.data.Decoded?
            && |o.after.data.items| == |before|
            && (forall j :: 0 <= j < |before| && j != i ==> o.after.data.items[j] == before[j])
            && (forall j :: 0 <= j < i ==> !Matches(before[j], t))
            && Matches(o.after.data.items[i], t)
            && o.reply == Outcome(200, true, MsgUpdated, Some(o.after.data.items[i]))
            && o.after.data.items[i] == EditOf(before[i], form, file, digest, moveOk, branch).item
            && o.after.uploads == (s.uploads + EditOf(before[i], form, file, digest, moveOk, branch).stored)
                                  - SetOf(EditOf(before[i], form, file, digest, moveOk, branch).marked))
  {
    var t := CastInt(requestId);
    var before := ListRead(s.data);
    if LoadOf(s.data).Loaded? {
      HasIdSpec(before, t);
      var i := FirstIndex(before, t);
      if i < |before| {
        EditMergesFields(before[i], form, file, digest, moveOk, branch);
      }
    }
  }

  /** The failures of an update: a method other than POST gets 405, an
      unreadable list 500 with the read error, a refused edit its own reply,
      and a failed write 500; none of them changes the list, and after a
      failed write the moved upload stays behind. */
  lemma UpdateFailureReplies(s: Disk, verb: Verb, requestId: Scalar, form: UpdateForm,
                             file: Option<Upload>, digest: string, moveOk: bool, saveOk: bool,
                             branch: RemovalBranch)
    ensures var o := UpdateOutcome(s, verb, requestId, form, file, digest, moveOk, saveOk, branch);
      var t := CastInt(requestId);
      var before := ListRead(s.data);
      && (verb != Post ==> o == Step(MethodNotAllowed, s))
      && (verb == Post && t != 0 && LoadOf(s.data).LoadError? ==>
            o == Step(ErrorBody(500, LoadOf(s.data).error), s))
      && (verb == Post && t != 0 && LoadOf(s.data).Loaded? && FirstIndex(before, t) < |before| ==>
            var e := EditOf(before[FirstIndex(before, t)], form, file, digest, moveOk, branch);
            && (e.EditRejected? ==> o == Step(e.reply, s))
            && (e.Edited? && !saveOk ==>
                  o == Step(Failed(500, MsgUpdateSaveFailed), s.(uploads := s.uploads + e.stored))))
  {
  }

  /** A successful update with a new image points the item at the stored
      upload, keeps that file, and deletes the item's previous image file
      (unless the new upload was given the same name). */
  lemma UpdateReplaceSwapsImageFile(s: Disk, verb: Verb, requestId: Scalar, form: UpdateForm,
                                    file: Option<Upload>, digest: string, moveOk: bool, saveOk: bool,
                                    branch: RemovalBranch)
    requires Uploaded(file)
    requires UpdateOutcome(s, verb, requestId, form, file, digest, moveOk, saveOk, branch).reply.Outcome?
    requires UpdateOutcome(s, verb, requestId, form, file, digest, moveOk, saveOk, branch).reply.success
    ensures var o := UpdateOutcome(s, verb, requestId, form, file, digest, moveOk, saveOk, branch);
      var before := ListRead(s.data);
      var i := FirstIndex(before, CastInt(requestId));
      var n := StoredFileName(digest, UpdateExtension(file.value));
      var previous := ImageFile(before[i].imageUrl);
      && o.after.data.items[i].imageUrl == Some(StoredUrl(n))
      && (previous != Some(n) ==> n in o.after.uploads)
      && (previous.Some? ==> previous.value !in o.after.uploads)
  {
    UpdateTouchesOnlyFirstMatch(s, verb, requestId, form, file, digest, moveOk, saveOk, branch);
    var before := ListRead(s.data);
    var i := FirstIndex(before, CastInt(requestId));
    EditMergesFields(before[i], form, file, digest, moveOk, branch);
  }

  /** Without a successful write no file is unlinked: a failed update can
      only add the newly moved upload. */
  lemma UpdateUnlinksOnlyAfterSave(s: Disk, verb: Verb, requestId: Scalar, form: UpdateForm,
                                   file: Option<Upload>, digest: string, moveOk: bool, saveOk: bool,
                                   branch: RemovalBranch)
    ensures var o := UpdateOutcome(s, verb, requestId, form, file, digest, moveOk, saveOk, branch);
      && (!(o.reply.Outcome? && o.reply.success) ==> s.uploads <= o.after.uploads)
      && o.after.uploads - s.uploads <= (if Uploaded(file) then {StoredFileName(digest, UpdateExtension(file.value))} else {})
  {
  }

  /** With the corrected removal branch, an update that clears the image
      (no upload, no `existingImageUrl`) also deletes the old image file. */
  lemma UpdateRemovalDeletesOldImage(s: Disk, verb: Verb, requestId: Scalar, form: UpdateForm,
                                     file: Option<Upload>, digest: string, moveOk: bool, saveOk: bool,
                                     branch: RemovalBranch)
    requires branch == Intended
    requires !Uploaded(file) && form.existingImageUrl.None?
    requires UpdateOutcome(s, verb, requestId, form, file, digest, moveOk, saveOk, branch).reply.Outcome?
    requires UpdateOutcome(s, verb, requestId, form, file, digest, moveOk, saveOk, branch).reply.success
    ensures var o := UpdateOutcome(s, verb, requestId, form, file, digest, moveOk, saveOk, branch);
      var before := ListRead(s.data);
      var i := FirstIndex(before, CastInt(requestId));
      && o.after.data.items[i].imageUrl.None?
      && (Truthy(before[i].imageUrl) ==> Basename(before[i].imageUrl.value) !in o.after.uploads)
  {
    var before := ListRead(s.data);
    var i := FirstIndex(before, CastInt(requestId));
    EditMergesFields(before[i], form, file, digest, moveOk, branch);
  }

  /** With the removal branch as written, an update that clears the image
      unlinks nothing: the item loses its URL but the upload directory is
      left exactly as it was, so the old file stays behind. */
  lemma UpdateRemovalAsWrittenKeepsOldImage(s: Disk, verb: Verb, requestId: Scalar, form: UpdateForm,
                                            file: Option<Upload>, digest: string, moveOk: bool, saveOk: bool,
                                            branch: RemovalBranch)
    requires branch == AsWritten
    requires !Uploaded(file) && form.existingImageUrl.None?
    requires UpdateOutcome(s, verb, requestId, form, file, digest, moveOk, saveOk, branch).reply.Outcome?
    requires UpdateOutcome(s, verb, requestId, form, file, digest, moveOk, saveOk, branch).reply.success
    ensures var o := UpdateOutcome(s, verb, requestId, form, file, digest, moveOk, saveOk, branch);
      var before := ListRead(s.data);
      var i := FirstIndex(before, CastInt(requestId));
      && o.after.data.items[i].imageUrl.None?
      && o.after.uploads == s.uploads
  {
    var before := ListRead(s.data);
    var i := FirstIndex(before, CastInt(requestId));
    EditMergesFields(before[i], form, file, digest, moveOk, branch);
  }

  // ---------------------------------------------------------------------
  // The backend

  class FlatFileBackend {
    var data: DataFile
    var uploads: set<string>

    ghost function State(): Disk
      reads this
    {
      Disk(data, uploads)
    }

    constructor (file: DataFile, files: set<string>)
      ensures State() == Disk(file, files)
    {
      data, uploads := file, files;
    }

    /** `get_items`: reads the file and casts every present id to an
        integer in place. */
    method GetItems() returns (r: Loaded)
      ensures r == LoadOf(data)
    {
      match data {
        case Missing => return Loaded([]);
        case Unreadable => return LoadError(MsgReadFailed);
        case Malformed => return LoadError(MsgInvalidJson);
        case Decoded(decoded) =>
          var list := decoded;
          for k := 0 to |list|
            invariant |list| == |decoded|
            invariant forall j :: 0 <= j < k ==> list[j] == CastItem(decoded[j])
            invariant forall j :: k <= j < |list| ==> list[j] == decoded[j]
          {
            if !list[k].id.Absent? {
              list := list[k := list[k].(id := IntVal(CastInt(list[k].id)))];
            }
          }
          assert list == CastIds(decoded);
          return Loaded(list);
      }
    }

    /** `save_items`: replaces the file with the encoded list when the write
        succeeds. */
    method SaveItems(items: seq<JsonItem>, writeOk: bool) returns (ok: bool)
      modifies this`data
      ensures ok == writeOk
      ensures data == (if writeOk then Decoded(items) else old(data))
    {
      if writeOk {
        data := Decoded(items);
        ok := true;
      } else {
        ok := false;
      }
    }

    /** The list endpoint. */
    method ListEndpoint(verb: Verb) returns (reply: ApiReply)
      ensures reply == ListReply(verb, data)
    {
      if verb != Get {
        return MethodNotAllowed;
      }
      var loaded := GetItems();
      if loaded.LoadError? {
        return ErrorBody(loaded.Status(), loaded.error);
      }
      reply := ItemList(loaded.Status(), loaded.items);
    }

    /** The add endpoint. */
    method AddEndpoint(verb: Verb, form: AddForm, file: Option<Upload>, digest: string, nowMillis: int,
                       moveOk: bool, saveOk: bool)
      returns (reply: ApiReply)
      modifies this
      ensures Step(reply, State()) == AddOutcome(old(State()), verb, form, file, digest, nowMillis, moveOk, saveOk)
    {
      if verb != Post {
        return MethodNotAllowed;
      }
      var price := PostedPrice(form);
      var name := form.name.GetOr("");
      var description := form.description.GetOr("");
      if IsEmptyString(name) || IsEmptyString(description) {
        return Failed(400, MsgMissingFields);
      }
      if !price.isNumeric {
        return Failed(400, MsgPriceNotNumber);
      }
      var newItem: JsonItem;
      if Uploaded(file) {
        var ext := ToLower(LastDotSegment(file.value.clientName));
        var newFileName := StoredFileName(digest, ext);
        if ext !in AllowedExtensions {
          return Failed(400, MsgBadType);
        }
        if file.value.size > MaxImageBytes {
          return Failed(400, MsgTooLarge);
        }
        if moveOk {
          uploads := uploads + {newFileName};
          newItem := NewItem(form, nowMillis, StoredUrl(newFileName));
        } else {
          return Failed(500, MsgMoveFailed);
        }
      } else {
        return Failed(400, MsgNoImage);
      }
      var loaded := GetItems();
      if loaded.LoadError? {
        return ErrorBody(loaded.Status(), loaded.error);
      }
      var ok := SaveItems(loaded.items + [newItem], saveOk);
      if ok {
        reply := Outcome(200, true, MsgAdded, Some(newItem));
      } else {
        reply := Failed(500, MsgWriteFailed);
      }
    }

    /** The pass of the delete endpoint over the list: it keeps every item
        without the target id, notes whether one had it, and remembers the
        image path of the last such item that had an image. */
    method ScanForDelete(items: seq<JsonItem>, target: int)
      returns (kept: seq<JsonItem>, itemDeleted: bool, imageToDelete: Option<string>)
      ensures kept == Without(items, target)
      ensures itemDeleted == HasId(items, target)
      ensures imageToDelete == LastImage(items, target)
    {
      itemDeleted := false;
      kept := [];
      imageToDelete := None;
      for k := 0 to |items|
        invariant kept == Without(items[..k], target)
        invariant itemDeleted == HasId(items[..k], target)
        invariant imageToDelete == LastImage(items[..k], target)
      {
        assert items[..k + 1][..k] == items[..k];
        var item := items[k];
        if item.id == IntVal(target) {
          itemDeleted := true;
          var imageFile := ImageFile(item.imageUrl);
          if imageFile.Some? {
            imageToDelete := imageFile;
          }
        } else {
          kept := kept + [item];
        }
      }
      assert items[..|items|] == items;
    }

    /** The delete endpoint: one pass over the list, then the write, then
        the unlink. */
    method DeleteEndpoint(verb: Verb, requestId: Scalar, saveOk: bool) returns (reply: ApiReply)
      modifies this
      ensures Step(reply, State()) == DeleteOutcome(old(State()), verb, requestId, saveOk)
    {
      if verb != Delete {
        return MethodNotAllowed;
      }
      var target := CastInt(requestId);
      if target == 0 {
        return Failed(400, MsgDeleteNeedsId);
      }
      var loaded := GetItems();
      if loaded.LoadError? {
        return ErrorBody(loaded.Status(), loaded.error);
      }
      var kept, itemDeleted, imageToDelete := ScanForDelete(loaded.items, target);
      if !itemDeleted {
        return Failed(404, MsgDeleteNotFound);
      }
      var ok := SaveItems(kept, saveOk);
      if ok {
        if imageToDelete.Some? && imageToDelete.value in uploads {
          uploads := uploads - {imageToDelete.value};
        }
        reply := Outcome(200, true, MsgDeleted, None);
      } else {
        reply := Failed(500, MsgDeleteSaveFailed);
      }
    }

    /** The edit of the matched item, storing a valid upload in the upload
        directory. */
    method EditItem(item: JsonItem, form: UpdateForm, file: Option<Upload>, digest: string, moveOk: bool,
                    branch: RemovalBranch)
      returns (e: Edit)
      modifies this`uploads
      ensures e == EditOf(item, form, file, digest, moveOk, branch)
      ensures uploads == old(uploads) + (if e.Edited? then e.stored else {})
    {
      var edited := item.(name := form.name.GetOr(item.name),
                          description := form.description.GetOr(item.description),
                          price := if form.price.Some? then form.price.value.asFloat else item.price);
      var oldImageToDelete: Option<string> := None;
      if Uploaded(file) {
        oldImageToDelete := ImageFile(item.imageUrl);
        var ext := ToLower(PathInfoExtension(file.value.clientName));
        var newFileName := StoredFileName(digest, ext);
        if ext !in AllowedExtensions {
          return EditRejected(Failed(400, MsgUpdateBadType));
        }
        if file.value.size > MaxImageBytes {
          return EditRejected(Failed(400, MsgUpdateTooLarge));
        }
        if moveOk {
          uploads := uploads + {newFileName};
          edited := edited.(imageUrl := Some(StoredUrl(newFileName)));
          return Edited(edited, {newFileName}, oldImageToDelete);
        } else {
          return EditRejected(Failed(500, MsgUpdateMoveFailed));
        }
      } else if form.existingImageUrl.Some? {
        edited := edited.(imageUrl := form.existingImageUrl);
      } else {
        edited := edited.(imageUrl := None);
        // as written, the test reads the URL that was just cleared
        var tested := if branch == AsWritten then edited else item;
        if Truthy(tested.imageUrl) {
          oldImageToDelete := ImageFile(tested.imageUrl);
        }
      }
      e := Edited(edited, {}, oldImageToDelete);
    }

    /** The update endpoint: the loop stops at the first item with the id,
        edits it in place and breaks. */
    method UpdateEndpoint(verb: Verb, requestId: Scalar, form: UpdateForm, file: Option<Upload>,
                          digest: string, moveOk: bool, saveOk: bool, branch: RemovalBranch)
      returns (reply: ApiReply)
      modifies this
      ensures Step(reply, State()) == UpdateOutcome(old(State()), verb, requestId, form, file, digest, moveOk, saveOk, branch)
    {
      if verb != Post {
        return MethodNotAllowed;
      }
      var target := CastInt(requestId);
      if target == 0 {
        return Failed(400, MsgUpdateNeedsId);
      }
      var loaded := GetItems();
      if loaded.LoadError? {
        return ErrorBody(loaded.Status(), loaded.error);
      }
      var items := loaded.items;
      ghost var before := uploads;
      var itemUpdated := false;
      var edit: Edit := EditRejected(Failed(404, MsgUpdateNotFound));
      var i := 0;
      while i < |items|
        invariant i <= FirstIndex(loaded.items, target)
        invariant items == loaded.items && uploads == before && !itemUpdated
      {
        if items[i].id == IntVal(target) {
          itemUpdated := true;
          edit := EditItem(items[i], form, file, digest, moveOk, branch);
          if edit.EditRejected? {
            return edit.reply;
          }
          items := items[i := edit.item];
          break;
        }
        i := i + 1;
      }
      if !itemUpdated {
        return Failed(404, MsgUpdateNotFound);
      }
      reply := SaveEditedList(items, edit.item, edit.marked, saveOk);
    }

    /** Writes the edited list and, once it is written, unlinks the marked
        old image when it exists. */
    method SaveEditedList(list: seq<JsonItem>, item: JsonItem, marked: Option<string>, saveOk: bool)
      returns (reply: ApiReply)
      modifies this
      ensures Step(reply, State()) == SaveEdited(old(State()), list, item, marked, saveOk)
    {
      var ok := SaveItems(list, saveOk);
      if ok {
        if marked.Some? && marked.value in uploads {
          uploads := uploads - {marked.value};
        }
        reply := Outcome(200, true, MsgUpdated, Some(item));
      } else {
        reply := Failed(500, MsgUpdateSaveFailed);
      }
    }
  }
}
