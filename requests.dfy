/**
 * The five HTTP handlers of requests.go (`addRequest`, `getRequests`,
 * `getRequest`, `updRequest`, `delRequest`) with their helpers `isExist` and
 * `load`, over an in-memory job table and a log of published messages, behind
 * the API-key gate of main.go.
 *
 * Every call to the database or the broker that can fail is an explicit
 * boolean input saying whether it fails; a body the JSON decoder rejects is
 * `None`.
 */
module Requests {
  import opened Wrappers
  import opened Http
  import opened Table
  import Rabbit

  /** The `data` member of an answer: the list of `getRequests` or the one request of `getRequest`. */
  datatype Data = Many(requests: seq<Request>) | One(request: Request)

  // Messages of the envelopes, as written by the handlers (trailing spaces included).
  const CantParseJson := "Can't parse json"
  const NameCantBeNull := "name can't be null"
  const CantPublish := "Can't publish to rabbit "
  const CantAdd := "Can't add new request "
  const Added := "Successfully added new request"
  const CantGetRequests := "Can't get requests"
  const CantScan := "Can't scan request"
  const GotAll := "Successfully got all the requests"
  const CantCheck := "Can't check request"
  const DoesNotExist := "Request doesn't exist"
  const CantLoad := "Can't load request"
  const GotOne := "Successfully got the request info"
  const CantLoadInfo := "Can't load request info"
  const ErrorUpdating := "Error updating request"
  const Updated := "Successfully updated request"
  const ErrorDeleting := "Error deleting request"
  const Deleted := "Successfully deleted request"

  /** An answer carrying no data. */
  function Plain(code: int, msg: string): Response<Data> {
    ReturnResponse(code, msg, None)
  }

  /**
   * The message `addRequest` publishes: to the primary exchange with an empty
   * routing key, neither mandatory nor immediate, persistent, as JSON.
   */
  function Message(r: Request): (m: Rabbit.Publishing<Job>)
    ensures m.exchange == Rabbit.PrimaryExchange && m.deliveryMode == Rabbit.Persistent
    ensures m.routingKey == "" && !m.mandatory && !m.immediate && m.contentType == "application/json"
    ensures m.body == Marshal(r)
  {
    Rabbit.Publishing(Rabbit.PrimaryExchange, "", false, false, Rabbit.Persistent, "application/json", Marshal(r))
  }

  /**
   * Whatever its routing key, the message reaches exactly the worker queue and
   * the archive queue of the topology `initRabbit` declares.
   */
  lemma MessageReachesWorkerAndArchive(r: Request)
    ensures Rabbit.Route(Rabbit.Declared(), Message(r).exchange, Message(r).routingKey)
      == {Rabbit.WorkerQueue, Rabbit.ArchiveQueue}
  {
    Rabbit.DeclaredRoutes(Rabbit.PrimaryExchange, "");
  }

  /** One handler invocation, with the failures of its dependencies. */
  datatype Call =
    | GetAll(queryFails: bool, scanFails: bool)
    | Add(body: Option<Payload>, publishFails: bool, insertFails: bool)
    | GetOne(name: string, existFails: bool, loadFails: bool)
    | Update(name: string, body: Option<Payload>, existFails: bool, loadFails: bool, failing: set<Column>)
    | Delete(name: string, existFails: bool, deleteFails: bool)

  /** The service: the `requests` table, the messages published so far, the id sequence and the clock. */
  class Service {
    /** The configured API key. */
    const token: string
    var rows: seq<Row>
    var published: seq<Rabbit.Publishing<Job>>
    var nextId: nat
    var clock: nat

    ghost predicate Valid()
      reads this
    {
      WellFormed(rows, nextId, clock)
    }

    constructor (token: string)
      ensures Valid()
      ensures this.token == token && rows == [] && published == [] && nextId == 1 && clock == 0
    {
      this.token := token;
      rows := [];
      published := [];
      nextId := 1;
      clock := 0;
    }

    /**
     * `load`: the first active row named `name`, scanned into a struct;
     * `None` when the query fails (`fails`) or finds no row.
     */
    method Load(name: string, fails: bool) returns (r: Option<Request>)
      ensures fails ==> r.None?
      ensures !fails ==> r == match FirstActive(rows, name)
                              case None => None
                              case Some(i) => Some(Loaded(rows[i]))
    {
      if fails {
        return None;
      }
      var i := 0;
      while i < |rows| && !Active(rows[i], name)
        invariant 0 <= i <= |rows|
        invariant forall j :: 0 <= j < i ==> !Active(rows[j], name)
      {
        i := i + 1;
      }
      if i < |rows| {
        r := Some(Loaded(rows[i]));
      } else {
        r := None;
      }
    }

    /**
     * `getRequests`: the summaries of the non-archived rows in store order,
     * unless the query or a scan fails.
     */
    method GetRequests(queryFails: bool, scanFails: bool) returns (resp: Response<Data>)
      ensures resp == if queryFails then Plain(StatusInternalServerError, CantGetRequests)
                      else if scanFails then Plain(StatusInternalServerError, CantScan)
                      else ReturnResponse(StatusOK, GotAll, Some(Many(ListView(rows))))
    {
      if queryFails {
        return Plain(StatusInternalServerError, CantGetRequests);
      }
      var requests: seq<Request> := [];
      var i := 0;
      while i < |rows|
        invariant 0 <= i <= |rows|
        invariant requests == ListView(rows[..i])
      {
        assert rows[..i + 1][..i] == rows[..i];
        if !rows[i].archived {
          requests := requests + [Summary(rows[i])];
        }
        i := i + 1;
      }
      assert rows[..|rows|] == rows;
      if scanFails {
        return Plain(StatusInternalServerError, CantScan);
      }
      resp := ReturnResponse(StatusOK, GotAll, Some(Many(requests)));
    }

    /**
     * `getRequest`: the existence check, then `load`; the data is the loaded
     * first active row named `name`.
     */
    method GetRequest(name: string, existFails: bool, loadFails: bool) returns (resp: Response<Data>)
      ensures existFails ==> resp == Plain(StatusInternalServerError, CantCheck)
      ensures !existFails && !IsExist(rows, name) ==> resp == Plain(StatusBadRequest, DoesNotExist)
      ensures !existFails && IsExist(rows, name) && loadFails ==> resp == Plain(StatusInternalServerError, CantLoad)
      ensures !existFails && IsExist(rows, name) && !loadFails ==>
        && FirstActive(rows, name).Some?
        && resp == ReturnResponse(StatusOK, GotOne, Some(One(Loaded(rows[FirstActive(rows, name).value]))))
    {
      if existFails {
        return Plain(StatusInternalServerError, CantCheck);
      }
      if !IsExist(rows, name) {
        return Plain(StatusBadRequest, DoesNotExist);
      }
      LoadFindsExisting(rows, name);
      var request := Load(name, loadFails);
      if request.None? {
        return Plain(StatusInternalServerError, CantLoad);
      }
      resp := ReturnResponse(StatusOK, GotOne, Some(One(request.value)));
    }

    /**
     * `addRequest`: parse, check the name, publish, insert, in that order; a
     * failure at one step skips the later ones, and a publish that succeeded
     * stays published when the insert then fails.
     */
    method AddRequest(body: Option<Payload>, publishFails: bool, insertFails: bool) returns (resp: Response<Data>)
      requires Valid()
      modifies this
      ensures Valid()
      ensures Grows(old(rows), rows)
      ensures body.None? ==> resp == Plain(StatusBadRequest, CantParseJson) && unchanged(this)
      ensures body.Some? && body.value.name.None? ==>
        resp == Plain(StatusBadRequest, NameCantBeNull) && unchanged(this)
      ensures body.Some? && body.value.name.Some? && publishFails ==>
        resp == Plain(StatusInternalServerError, CantPublish) && unchanged(this)
      ensures body.Some? && body.value.name.Some? && !publishFails ==>
        published == old(published) + [Message(FromPayload(body.value).value)]
      ensures body.Some? && body.value.name.Some? && !publishFails && insertFails ==>
        && resp == Plain(StatusInternalServerError, CantAdd)
        && rows == old(rows) && nextId == old(nextId) && clock == old(clock)
      ensures body.Some? && body.value.name.Some? && !publishFails && !insertFails ==>
        && resp == Plain(StatusOK, Added)
        && rows == old(rows) + [NewRow(old(nextId), FromPayload(body.value).value, old(clock) + 1)]
        && nextId == old(nextId) + 1 && clock == old(clock) + 1
    {
      if body.None? {
        return Plain(StatusBadRequest, CantParseJson);
      }
      var request := FromPayload(body.value);
      if request.None? {
        return Plain(StatusBadRequest, NameCantBeNull);
      }
      if publishFails {
        return Plain(StatusInternalServerError, CantPublish);
      }
      published := published + [Message(request.value)];
      if insertFails {
        return Plain(StatusInternalServerError, CantAdd);
      }
      var rows' := rows + [NewRow(nextId, request.value, clock + 1)];
      assert WellFormed(rows', nextId + 1, clock + 1) by {
        InsertWellFormed(rows, nextId, clock, request.value);
      }
      assert Grows(rows, rows') by {
        InsertGrows(rows, NewRow(nextId, request.value, clock + 1));
      }
      clock := clock + 1;
      rows := rows';
      nextId := nextId + 1;
      resp := Plain(StatusOK, Added);
    }

    /**
     * One `UPDATE requests SET <column> = $1, updated_at = now() WHERE id = $2`,
     * committed on its own.
     */
    method Exec(id: nat, w: Write, fails: bool) returns (ok: bool)
      requires Valid()
      modifies this
      ensures Valid()
      ensures ok == !fails
      ensures published == old(published) && nextId == old(nextId)
      ensures fails ==> unchanged(this)
      ensures !fails ==> clock == old(clock) + 1 && rows == WriteById(old(rows), id, w, clock)
    {
      if fails {
        return false;
      }
      WriteByIdWellFormed(rows, nextId, clock, id, w);
      clock := clock + 1;
      rows := WriteById(rows, id, w, clock);
      ok := true;
    }

    /**
     * `updRequest`: the existence check, `load`, parse, then one statement per
     * field present in the body, on the loaded row's id. A failing statement
     * stops the handler, and the statements before it stay committed.
     */
    method UpdRequest(name: string, body: Option<Payload>, existFails: bool, loadFails: bool,
                      failing: set<Column>) returns (resp: Response<Data>)
      requires Valid()
      modifies this
      ensures Valid()
      ensures Grows(old(rows), rows)
      ensures published == old(published) && nextId == old(nextId)
      ensures existFails ==> resp == Plain(StatusInternalServerError, CantCheck) && unchanged(this)
      ensures !existFails && !IsExist(old(rows), name) ==>
        resp == Plain(StatusBadRequest, DoesNotExist) && unchanged(this)
      ensures !existFails && IsExist(old(rows), name) && loadFails ==>
        resp == Plain(StatusInternalServerError, CantLoadInfo) && unchanged(this)
      ensures !existFails && IsExist(old(rows), name) && !loadFails && body.None? ==>
        resp == Plain(StatusBadRequest, CantParseJson) && unchanged(this)
      ensures !existFails && IsExist(old(rows), name) && !loadFails && body.Some? ==>
        && FirstActive(old(rows), name).Some?
        && var id := old(rows)[FirstActive(old(rows), name).value].id;
           var ws := Writes(body.value);
           var n := Applied(ws, failing);
           && rows == WriteAll(old(rows), id, ws[..n], old(clock))
           && clock == old(clock) + n
           && resp == if n < |ws| then Plain(StatusInternalServerError, ErrorUpdating) else Plain(StatusOK, Updated)
    {
      if existFails {
        return Plain(StatusInternalServerError, CantCheck);
      }
      if !IsExist(rows, name) {
        return Plain(StatusBadRequest, DoesNotExist);
      }
      LoadFindsExisting(rows, name);
      var request := Load(name, loadFails);
      if request.None? {
        return Plain(StatusInternalServerError, CantLoadInfo);
      }
      if body.None? {
        return Plain(StatusBadRequest, CantParseJson);
      }
      var ok := ExecWrites(request.value.id, body.value, failing);
      resp := if ok then Plain(StatusOK, Updated) else Plain(StatusInternalServerError, ErrorUpdating);
    }

    /**
     * The UPDATE statements of `updRequest` on row `id`: description,
     * processed, text_url, each only when the body carries it, each committed
     * on its own, stopping at the first that fails; exactly the statements
     * before it are committed.
     */
    method ExecWrites(id: nat, p: Payload, failing: set<Column>) returns (ok: bool)
      requires Valid()
      modifies this
      ensures Valid()
      ensures Grows(old(rows), rows)
      ensures published == old(published) && nextId == old(nextId)
      ensures var ws := Writes(p);
        var n := Applied(ws, failing);
        && ok == (n == |ws|)
        && rows == WriteAll(old(rows), id, ws[..n], old(clock))
        && clock == old(clock) + n
    {
      ghost var rows0, clock0 := rows, clock;
      ghost var ws := Writes(p);
      WritesLayout(p);
      // The first `k` statements of `ws` are committed.
      ghost var k := 0;
      if p.description.Some? {
        ok := ExecNext(id, SetDescription(p.description.value), failing, ws, k, rows0, clock0);
        if !ok {
          return;
        }
        k := k + 1;
      }
      assert k == if p.description.Some? then 1 else 0;
      if p.processed.Some? {
        ok := ExecNext(id, SetProcessed(p.processed.value), failing, ws, k, rows0, clock0);
        if !ok {
          return;
        }
        k := k + 1;
      }
      assert k == |ws| - if p.textUrl.Some? then 1 else 0;
      if p.textUrl.Some? {
        ok := ExecNext(id, SetTextUrl(p.textUrl.value), failing, ws, k, rows0, clock0);
        if !ok {
          return;
        }
        k := k + 1;
      }
      assert ws[..k] == ws;
      WriteAllGrows(rows0, id, ws, clock0);
      ok := true;
    }

    /**
     * Statement `k` of `ws`, after the first `k` committed: it either fails,
     * which makes `k` the number committed, or commits as the `k + 1`-th.
     */
    method ExecNext(id: nat, w: Write, failing: set<Column>,
                    ghost ws: seq<Write>, ghost k: nat, ghost rows0: seq<Row>, ghost clock0: nat)
      returns (ok: bool)
      requires Valid()
      requires k < |ws| && ws[k] == w
      requires forall j :: 0 <= j < k ==> ColumnOf(ws[j]) !in failing
      requires rows == WriteAll(rows0, id, ws[..k], clock0) && clock == clock0 + k
      modifies this
      ensures Valid()
      ensures published == old(published) && nextId == old(nextId)
      ensures ok == (ColumnOf(ws[k]) !in failing)
      ensures !ok ==> unchanged(this) && Applied(ws, failing) == k
      ensures !ok ==> rows == WriteAll(rows0, id, ws[..k], clock0) && clock == clock0 + k
      ensures ok ==> forall j :: 0 <= j <= k ==> ColumnOf(ws[j]) !in failing
      ensures ok ==> rows == WriteAll(rows0, id, ws[..k + 1], clock0) && clock == clock0 + k + 1
      ensures Grows(rows0, rows)
    {
      ok := Exec(id, w, ColumnOf(w) in failing);
      if ok {
        WriteAllNext(rows0, id, ws, k, clock0);
        WriteAllGrows(rows0, id, ws[..k + 1], clock0);
      } else {
        WriteAllGrows(rows0, id, ws[..k], clock0);
      }
    }

    /**
     * `delRequest`: the existence check, then one statement archiving every
     * row with the name.
     */
    method DelRequest(name: string, existFails: bool, deleteFails: bool) returns (resp: Response<Data>)
      requires Valid()
      modifies this
      ensures Valid()
      ensures Grows(old(rows), rows)
      ensures published == old(published) && nextId == old(nextId)
      ensures existFails ==> resp == Plain(StatusInternalServerError, CantCheck) && unchanged(this)
      ensures !existFails && !IsExist(old(rows), name) ==>
        resp == Plain(StatusBadRequest, DoesNotExist) && unchanged(this)
      ensures !existFails && IsExist(old(rows), name) && deleteFails ==>
        resp == Plain(StatusInternalServerError, ErrorDeleting) && unchanged(this)
      ensures !existFails && IsExist(old(rows), name) && !deleteFails ==>
        && resp == Plain(StatusOK, Deleted)
        && rows == ArchiveByName(old(rows), name, old(clock) + 1) && clock == old(clock) + 1
        && !IsExist(rows, name)
    {
      if existFails {
        return Plain(StatusInternalServerError, CantCheck);
      }
      if !IsExist(rows, name) {
        return Plain(StatusBadRequest, DoesNotExist);
      }
      var ok := ExecArchive(name, deleteFails);
      resp := if ok then Plain(StatusOK, Deleted) else Plain(StatusInternalServerError, ErrorDeleting);
    }

    /** `UPDATE requests SET archived = true, updated_at = now() WHERE name = $1`. */
    method ExecArchive(name: string, fails: bool) returns (ok: bool)
      requires Valid()
      modifies this
      ensures Valid()
      ensures Grows(old(rows), rows)
      ensures ok == !fails
      ensures fails ==> unchanged(this)
      ensures !fails ==>
        && rows == ArchiveByName(old(rows), name, old(clock) + 1) && clock == old(clock) + 1
        && published == old(published) && nextId == old(nextId)
        && !IsExist(rows, name)
    {
      if fails {
        return false;
      }
      var rows' := ArchiveByName(rows, name, clock + 1);
      assert WellFormed(rows', nextId, clock + 1) by {
        ArchiveWellFormed(rows, nextId, clock, name);
      }
      assert Grows(rows, rows') by {
        ArchiveGrows(rows, name, clock + 1);
      }
      assert !IsExist(rows', name) by {
        ArchiveHides(rows, name, clock + 1);
      }
      clock := clock + 1;
      rows := rows';
      ok := true;
    }

    /**
     * A request through the router: `authMiddleware` first, then the handler.
     * A wrong or missing key is answered 401 without calling the handler, so
     * nothing changes; with the right key the answer and the new state are
     * those of the handler the call names. Whatever is called, archived rows
     * stay archived.
     */
    method Serve(headers: map<string, string>, call: Call) returns (resp: Response<Data>)
      requires Valid()
      modifies this
      ensures Valid()
      ensures Grows(old(rows), rows)
      ensures HeaderGet(headers, ApiKeyHeader) != token ==>
        resp == Text(StatusUnauthorized, Unauthorized) && unchanged(this)
      // GET /requests
      ensures HeaderGet(headers, ApiKeyHeader) == token && call.GetAll? ==>
        && unchanged(this)
        && resp == if call.queryFails then Plain(StatusInternalServerError, CantGetRequests)
                   else if call.scanFails then Plain(StatusInternalServerError, CantScan)
                   else ReturnResponse(StatusOK, GotAll, Some(Many(ListView(rows))))
      // POST /requests
      ensures HeaderGet(headers, ApiKeyHeader) == token && call.Add? ==>
        var body := call.body;
        && (body.None? ==> resp == Plain(StatusBadRequest, CantParseJson) && unchanged(this))
        && (body.Some? && body.value.name.None? ==>
              resp == Plain(StatusBadRequest, NameCantBeNull) && unchanged(this))
        && (body.Some? && body.value.name.Some? && call.publishFails ==>
              resp == Plain(StatusInternalServerError, CantPublish) && unchanged(this))
        && (body.Some? && body.value.name.Some? && !call.publishFails ==>
              published == old(published) + [Message(FromPayload(body.value).value)])
        && (body.Some? && body.value.name.Some? && !call.publishFails && call.insertFails ==>
              && resp == Plain(StatusInternalServerError, CantAdd)
              && rows == old(rows) && nextId == old(nextId) && clock == old(clock))
        && (body.Some? && body.value.name.Some? && !call.publishFails && !call.insertFails ==>
              && resp == Plain(StatusOK, Added)
              && rows == old(rows) + [NewRow(old(nextId), FromPayload(body.value).value, old(clock) + 1)]
              && nextId == old(nextId) + 1 && clock == old(clock) + 1)
      // GET /requests/{name}
      ensures HeaderGet(headers, ApiKeyHeader) == token && call.GetOne? ==>
        var name := call.name;
        && unchanged(this)
        && (call.existFails ==> resp == Plain(StatusInternalServerError, CantCheck))
        && (!call.existFails && !IsExist(rows, name) ==> resp == Plain(StatusBadRequest, DoesNotExist))
        && (!call.existFails && IsExist(rows, name) && call.loadFails ==>
              resp == Plain(StatusInternalServerError, CantLoad))
        && (!call.existFails && IsExist(rows, name) && !call.loadFails ==>
              && FirstActive(rows, name).Some?
              && resp == ReturnResponse(StatusOK, GotOne, Some(One(Loaded(rows[FirstActive(rows, name).value])))))
      // PUT /requests/{name}
      ensures HeaderGet(headers, ApiKeyHeader) == token && call.Update? ==>
        var name, body := call.name, call.body;
        && published == old(published) && nextId == old(nextId)
        && (call.existFails ==> resp == Plain(StatusInternalServerError, CantCheck) && unchanged(this))
        && (!call.existFails && !IsExist(old(rows), name) ==>
              resp == Plain(StatusBadRequest, DoesNotExist) && unchanged(this))
        && (!call.existFails && IsExist(old(rows), name) && call.loadFails ==>
              resp == Plain(StatusInternalServerError, CantLoadInfo) && unchanged(this))
        && (!call.existFails && IsExist(old(rows), name) && !call.loadFails && body.None? ==>
              resp == Plain(StatusBadRequest, CantParseJson) && unchanged(this))
        && (!call.existFails && IsExist(old(rows), name) && !call.loadFails && body.Some? ==>
              && FirstActive(old(rows), name).Some?
              && var id := old(rows)[FirstActive(old(rows), name).value].id;
                 var ws := Writes(body.value);
                 var n := Applied(ws, call.failing);
                 && rows == WriteAll(old(rows), id, ws[..n], old(clock))
                 && clock == old(clock) + n
                 && resp == if n < |ws| then Plain(StatusInternalServerError, ErrorUpdating) else Plain(StatusOK, Updated))
      // DELETE /requests/{name}
      ensures HeaderGet(headers, ApiKeyHeader) == token && call.Delete? ==>
        var name := call.name;
        && published == old(published) && nextId == old(nextId)
        && (call.existFails ==> resp == Plain(StatusInternalServerError, CantCheck) && unchanged(this))
        && (!call.existFails && !IsExist(old(rows), name) ==>
              resp == Plain(StatusBadRequest, DoesNotExist) && unchanged(this))
        && (!call.existFails && IsExist(old(rows), name) && call.deleteFails ==>
              resp == Plain(StatusInternalServerError, ErrorDeleting) && unchanged(this))
        && (!call.existFails && IsExist(old(rows), name) && !call.deleteFails ==>
              && resp == Plain(StatusOK, Deleted)
              && rows == ArchiveByName(old(rows), name, old(clock) + 1) && clock == old(clock) + 1
              && !IsExist(rows, name))
    {
      var denied := AuthMiddleware<Data>(headers, token);
      if denied.Some? {
        return denied.value;
      }
      match call
      case GetAll(queryFails, scanFails) =>
        resp := GetRequests(queryFails, scanFails);
      case Add(body, publishFails, insertFails) =>
        resp := AddRequest(body, publishFails, insertFails);
      case GetOne(name, existFails, loadFails) =>
        resp := GetRequest(name, existFails, loadFails);
      case Update(name, body, existFails, loadFails, failing) =>
        resp := UpdRequest(name, body, existFails, loadFails, failing);
      case Delete(name, existFails, deleteFails) =>
        resp := DelRequest(name, existFails, deleteFails);
    }
  }

  /**
   * The lifecycle of one job with no dependency failing: create `name` with a
   * video url only, mark it processed, delete it; afterwards it can no longer
   * be read, and the one message published carries the creation-time fields.
   */
  method Lifecycle(token: string, name: string, videoUrl: string) returns (s: Service, last: Response<Data>)
    ensures |s.rows| == 1 && s.rows[0].name == name && s.rows[0].archived && s.rows[0].processed
    ensures s.rows[0].videoUrl == videoUrl && s.rows[0].description == "" && s.rows[0].textUrl == ""
    ensures |s.published| == 1 && s.published[0].body.name == name && !s.published[0].body.processed
    ensures last == Plain(StatusBadRequest, DoesNotExist)
  {
    s := CreateAndMark(token, name, videoUrl);
    var row' := Row(1, name, "", videoUrl, "", false, true, 1, 2);
    LifecycleDelete(row');
    var deleted := s.DelRequest(name, false, false);
    assert s.rows == [row'.(archived := true, updatedAt := 3)];
    last := s.GetRequest(name, false, false);
  }

  /**
   * Proof helper for `Lifecycle`: its first two calls, creating `name` and
   * marking it processed.
   */
  method CreateAndMark(token: string, name: string, videoUrl: string) returns (s: Service)
    ensures fresh(s) && s.Valid() && s.clock == 2
    ensures s.rows == [Row(1, name, "", videoUrl, "", false, true, 1, 2)]
    ensures |s.published| == 1 && s.published[0].body.name == name && !s.published[0].body.processed
  {
    s := new Service(token);
    var created := s.AddRequest(Some(Payload(Some(name), None, None, Some(videoUrl), None)), false, false);
    var row := Row(1, name, "", videoUrl, "", false, false, 1, 1);
    assert s.rows == [row];
    var body := Payload(None, None, Some(true), None, None);
    LifecycleUpdate(row, body);
    var marked := s.UpdRequest(name, Some(body), false, false, {});
    assert s.rows == [row.(processed := true, updatedAt := 2)];
  }

  /** Proof helper for `Lifecycle`: the update marks the only row processed at tick 2. */
  lemma LifecycleUpdate(row: Row, body: Payload)
    requires !row.archived && row.id == 1
    requires body == Payload(None, None, Some(true), None, None)
    ensures FirstActive([row], row.name) == Some(0)
    ensures var ws := Writes(body);
      WriteAll([row], 1, ws[..Applied(ws, {})], 1) == [row.(processed := true, updatedAt := 2)]
  {
    var ws := Writes(body);
    assert ws == [SetProcessed(true)] && Applied(ws, {}) == 1 && ws[..1] == ws;
    WriteAllEffect([row], 1, ws, 1);
    WritesEffect(row, body, 1);
  }

  /** Proof helper for `Lifecycle`: the delete archives the only row at tick 3. */
  lemma LifecycleDelete(row: Row)
    ensures ArchiveByName([row], row.name, 3) == [row.(archived := true, updatedAt := 3)]
  {
  }

  /**
   * Two creations under the same name both succeed: nothing in `addRequest`
   * keeps names of non-archived jobs unique.
   */
  method DuplicateNames(token: string, name: string) returns (s: Service)
    ensures CountActive(s.rows, name) == 2
  {
    s := new Service(token);
    var first := s.AddRequest(Some(Payload(Some(name), None, None, None, None)), false, false);
    var second := s.AddRequest(Some(Payload(Some(name), None, None, None, None)), false, false);
    CountActiveAppend([], s.rows[0], name);
    CountActiveAppend([s.rows[0]], s.rows[1], name);
    assert s.rows == [s.rows[0]] + [s.rows[1]];
  }
}
