/** `init_schemes`: the schema files read into `JSON_SCHEMES`. The order in
    which the files are read is a parameter, since the loader walks a
    directory into a set. As written, the loader stores one schema object
    per message id, while `pack` and `unpack` treat the entry as a list of
    message types; the registry `Serializer` works on is the corrected one,
    listing every titled schema under its id in the order read. */
module SchemaLoader {
  import opened Results
  import opened Json
  import opened Schemas
  import opened Serializer

  /** A schema file: its `messageId` text and the message type it describes. */
  datatype SchemaFile = SchemaFile(messageId: string, message: Message)

  /** `if schema.title:`: an empty title is false. */
  predicate Titled(f: SchemaFile) {
    f.message.title != ""
  }

  // ---- as written ----

  /** `JSON_SCHEMES[schema.messageId] = schema` for each titled file of the
      first `n`: an id is present iff a titled file has it, and holds the
      last such file's message type. */
  function LoadAsWritten(files: seq<SchemaFile>, n: nat): (r: map<string, Message>)
    requires n <= |files|
    ensures forall id :: id in r <==> exists k :: 0 <= k < n && Titled(files[k]) && files[k].messageId == id
    ensures forall k :: 0 <= k < n && Titled(files[k]) && LastWithId(files, k, n) ==>
      r[files[k].messageId] == files[k].message
  {
    if n == 0 then map[]
    else
      var r := LoadAsWritten(files, n - 1);
      var f := files[n - 1];
      if Titled(f) then r[f.messageId := f.message] else r
  }

  /** No titled file after `k` among the first `n` has the id of file `k`. */
  predicate LastWithId(files: seq<SchemaFile>, k: nat, n: nat)
    requires k < n <= |files|
  {
    forall k' :: k < k' < n && Titled(files[k']) ==> files[k'].messageId != files[k].messageId
  }

  /** Why looking up the schemas of an id raised: the id is not registered
      (KeyError), or its entry is one schema object, which has no `len()`
      and cannot be iterated (TypeError). */
  datatype LookupError = MissingId | NotAList

  /** `JSON_SCHEMES[key]` used as a list of schemas. */
  function SchemasAsWritten(reg: map<string, Message>, key: string): (r: Result<seq<Message>, LookupError>)
    ensures r.Failure?
    ensures r.error == NotAList <==> key in reg
  {
    if key in reg then Failure(NotAList) else Failure(MissingId)
  }

  /** `pack` over the registry as loaded: whichever lookup error is raised,
      `pack` catches it and returns False before touching the message. */
  function PackAsWritten(reg: map<string, Message>, env: Value, addrOf: AddressParser, msg: Outgoing): (r: Packed)
    ensures r == Packed(false, msg)
  {
    match IdKey(env)
    case None => Packed(false, msg)
    case Some(key) =>
      match SchemasAsWritten(reg, key)
      case Success(_) => Packed(false, msg)
      case Failure(_) => Packed(false, msg)
  }

  /** `unpack` over the registry as loaded: an unregistered id gives the
      header without `data`, but a registered one raises the TypeError of
      `for schema in schemas`, which nothing in `unpack` catches. */
  function UnpackAsWritten(reg: map<string, Message>, m: Incoming): (r: Result<Unpacked, LookupError>)
    ensures r.Failure? <==> m.msgId != 0 && IdText(m.msgId) in reg
    ensures r.Success? ==> r.value == Unpacked(IdText(m.msgId), m.dst.id, m.src.id, None)
  {
    var key := IdText(m.msgId);
    if m.msgId == 0 then Success(Unpacked(key, m.dst.id, m.src.id, None))
    else
      match SchemasAsWritten(reg, key)
      case Failure(MissingId) => Success(Unpacked(key, m.dst.id, m.src.id, None))
      case Failure(NotAList) => Failure(NotAList)
      case Success(_) => Success(Unpacked(key, m.dst.id, m.src.id, None))
  }

  // ---- corrected ----

  /** Each titled file of the first `n` appended to the list under its id:
      every titled file's message type is listed under its id (and, by
      `LoadedIds`, only those ids are present). */
  function Load(files: seq<SchemaFile>, n: nat): (r: Registry)
    requires n <= |files|
    ensures forall k :: 0 <= k < n && Titled(files[k]) ==>
      files[k].messageId in r && files[k].message in r[files[k].messageId]
  {
    if n == 0 then map[]
    else
      var r := Load(files, n - 1);
      var f := files[n - 1];
      if Titled(f) then r[f.messageId := Listed(r, f.messageId) + [f.message]] else r
  }

  /** The list under `id`, empty when the id is not yet registered. */
  function Listed(r: Registry, id: string): seq<Message> {
    if id in r then r[id] else []
  }

  /** An id is registered only by a titled file that has it. */
  lemma {:induction false} LoadedIds(files: seq<SchemaFile>, n: nat, id: string)
    requires n <= |files|
    ensures id in Load(files, n) <==> exists k :: 0 <= k < n && Titled(files[k]) && files[k].messageId == id
    decreases n
  {
    if n > 0 {
      LoadedIds(files, n - 1, id);
      var f := files[n - 1];
      if Titled(f) && f.messageId == id {
        assert id in Load(files, n);
      } else {
        assert id in Load(files, n) <==> id in Load(files, n - 1);
      }
    }
  }

  /** A titled file that no other titled file shares its id with is the
      only type registered under that id. */
  lemma {:induction false} OnlyLoaded(files: seq<SchemaFile>, k: nat, n: nat)
    requires k < n <= |files| && Titled(files[k])
    requires forall k' :: 0 <= k' < n && k' != k && Titled(files[k']) ==> files[k'].messageId != files[k].messageId
    ensures Load(files, n)[files[k].messageId] == [files[k].message]
    decreases n
  {
    var id := files[k].messageId;
    var r := Load(files, n - 1);
    var f := files[n - 1];
    if n - 1 == k {
      LoadedIds(files, n - 1, id);
      assert id !in r;
      assert Load(files, n) == r[id := [] + [f.message]];
    } else {
      OnlyLoaded(files, k, n - 1);
      if Titled(f) {
        assert f.messageId != id;
        assert Load(files, n) == r[f.messageId := Listed(r, f.messageId) + [f.message]];
      } else {
        assert Load(files, n) == r;
      }
    }
  }

  /** The corrected loader lets `pack` choose the only schema loaded for an
      id whatever the envelope's `messageName`. */
  lemma OnlyLoadedIsChosen(files: seq<SchemaFile>, k: nat, env: Value)
    requires k < |files| && Titled(files[k]) && IdKey(env) == Some(files[k].messageId)
    requires forall k' :: 0 <= k' < |files| && k' != k && Titled(files[k']) ==> files[k'].messageId != files[k].messageId
    ensures ChosenSchema(Load(files, |files|), env) == Some(files[k].message.schema)
  {
    OnlyLoaded(files, k, |files|);
  }

  /** For any titled schema file: as written, `pack` of an envelope with
      its id returns False and `unpack` of a message with its id raises,
      while the corrected loader registers the file's type under the id. */
  lemma LoadAsWrittenFails(files: seq<SchemaFile>, k: nat, env: Value, addrOf: AddressParser, msg: Outgoing,
                           m: Incoming)
    requires k < |files| && Titled(files[k]) && IdKey(env) == Some(files[k].messageId)
    requires m.msgId != 0 && IdText(m.msgId) == files[k].messageId
    ensures files[k].messageId in LoadAsWritten(files, |files|)
    ensures !PackAsWritten(LoadAsWritten(files, |files|), env, addrOf, msg).ok
    ensures UnpackAsWritten(LoadAsWritten(files, |files|), m).Failure?
    ensures files[k].message in Load(files, |files|)[files[k].messageId]
  {
  }
}
