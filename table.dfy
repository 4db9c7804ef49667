/**
 * The `requests` table behind the handlers of requests.go, and the SQL
 * statements they run against it, as functions over the sequence of rows in
 * store order.
 */
module Table {
  import opened Wrappers

  /** One row of the `requests` table; `createdAt`/`updatedAt` are ticks of a logical clock. */
  datatype Row = Row(id: nat, name: string, description: string, videoUrl: string, textUrl: string,
                     archived: bool, processed: bool, createdAt: nat, updatedAt: nat)

  /**
   * The `Request` struct as a handler fills it. A timestamp is `None` while it
   * has not been scanned from the table (a nil `*time.Time`).
   */
  datatype Request = Request(id: nat, name: string, description: string, videoUrl: string, textUrl: string,
                             archived: bool, processed: bool, createdAt: Option<nat>, updatedAt: Option<nat>)

  /** `postRequestRequest`, the decoded body: a field the JSON leaves out (or sets to null) is `None`. */
  datatype Payload = Payload(name: Option<string>, description: Option<string>, processed: Option<bool>,
                             videoUrl: Option<string>, textUrl: Option<string>)

  /** The JSON object `json.Marshal` makes of a `Request`: every field but `id` (tagged `json:"-"`). */
  datatype Job = Job(name: string, description: string, videoUrl: string, textUrl: string,
                     archived: bool, processed: bool, createdAt: Option<nat>, updatedAt: Option<nat>)

  /** The rows with ids strictly increasing in store order, below `nextId`, stamped no later than `clock`. */
  predicate WellFormed(rows: seq<Row>, nextId: nat, clock: nat) {
    && (forall i, j :: 0 <= i < j < |rows| ==> rows[i].id < rows[j].id)
    && (forall i :: 0 <= i < |rows| ==> rows[i].id < nextId)
    && (forall i :: 0 <= i < |rows| ==> rows[i].createdAt <= rows[i].updatedAt <= clock)
  }

  // ---------------------------------------------------------------------------
  // isExist and load: `WHERE name = $1 AND NOT archived`
  // ---------------------------------------------------------------------------

  /** The row is one the existence check and `load` can see under `name`. */
  predicate Active(r: Row, name: string) {
    r.name == name && !r.archived
  }

  /**
   * `SELECT count(id) FROM requests WHERE name = $1 AND NOT archived`: at most
   * one per row, and zero exactly when no row is active under `name`.
   */
  function CountActive(rows: seq<Row>, name: string): (c: nat)
    ensures c <= |rows|
    ensures c == 0 <==> forall i :: 0 <= i < |rows| ==> !Active(rows[i], name)
  {
    if rows == [] then 0
    else
      var rest := CountActive(rows[1..], name);
      assert (forall i :: 0 <= i < |rows| ==> !Active(rows[i], name))
         <==> !Active(rows[0], name) && forall i :: 0 <= i < |rows[1..]| ==> !Active(rows[1..][i], name) by {
        if forall i :: 0 <= i < |rows[1..]| ==> !Active(rows[1..][i], name) {
          forall i | 1 <= i < |rows| ensures !Active(rows[i], name) {
            assert rows[i] == rows[1..][i - 1];
          }
        }
      }
      (if Active(rows[0], name) then 1 else 0) + rest
  }

  /** `isExist`: whether the count is not zero. */
  function IsExist(rows: seq<Row>, name: string): bool {
    CountActive(rows, name) != 0
  }

  /** `isExist(n)` holds exactly when some row is named `n` and not archived. */
  lemma IsExistIff(rows: seq<Row>, name: string)
    ensures IsExist(rows, name) <==> exists i :: 0 <= i < |rows| && Active(rows[i], name)
  {
  }

  /**
   * The inserted row counts on top of the others: the insert checks nothing
   * about names already in use, so a second active row with the same name is
   * accepted.
   */
  lemma {:induction false} CountActiveAppend(rows: seq<Row>, r: Row, name: string)
    ensures CountActive(rows + [r], name) == CountActive(rows, name) + if Active(r, name) then 1 else 0
  {
    if rows == [] {
      assert [r][1..] == [];
    } else {
      assert (rows + [r])[1..] == rows[1..] + [r];
      CountActiveAppend(rows[1..], r, name);
    }
  }

  /**
   * The row `load`'s `QueryRow` scans: the first active row named `name` in
   * store order (the statement has no ORDER BY; store order is the model's
   * choice of the row the database returns first).
   */
  function FirstActive(rows: seq<Row>, name: string): (r: Option<nat>)
    ensures r.Some? ==> r.value < |rows| && Active(rows[r.value], name)
    ensures r.Some? ==> forall j :: 0 <= j < r.value ==> !Active(rows[j], name)
    ensures r.None? ==> forall j :: 0 <= j < |rows| ==> !Active(rows[j], name)
  {
    if rows == [] then None
    else if Active(rows[0], name) then Some(0)
    else match FirstActive(rows[1..], name)
      case None => None
      case Some(k) => Some(k + 1)
  }

  /** `load` finds a row exactly when `isExist` reports one. */
  lemma LoadFindsExisting(rows: seq<Row>, name: string)
    ensures FirstActive(rows, name).Some? <==> IsExist(rows, name)
  {
    IsExistIff(rows, name);
  }

  /**
   * The struct after `load`'s Scan: id, name, description, processed,
   * video_url, text_url and both timestamps come from the row; `archived` is
   * not selected and keeps its zero value.
   */
  function Loaded(r: Row): (q: Request)
    ensures q.archived == false && q.createdAt.Some? && q.updatedAt.Some?
  {
    Request(r.id, r.name, r.description, r.videoUrl, r.textUrl, false, r.processed,
            Some(r.createdAt), Some(r.updatedAt))
  }

  // ---------------------------------------------------------------------------
  // getRequests: `SELECT id, name, description, created_at, updated_at ... WHERE not archived`
  // ---------------------------------------------------------------------------

  /** The struct `getRequests` scans a row into: the five selected columns, zero values elsewhere. */
  function Summary(r: Row): (q: Request)
    ensures q.videoUrl == "" && q.textUrl == "" && !q.archived && !q.processed
  {
    Request(r.id, r.name, r.description, "", "", false, false, Some(r.createdAt), Some(r.updatedAt))
  }

  /**
   * The list `getRequests` builds: the summaries of the non-archived rows, in
   * store order. No entry is longer than the table, and each carries only the
   * five selected columns.
   */
  function ListView(rows: seq<Row>): (lv: seq<Request>)
    ensures |lv| <= |rows|
    ensures forall k :: 0 <= k < |lv| ==> lv[k].videoUrl == "" && lv[k].textUrl == "" && !lv[k].processed
  {
    if rows == [] then []
    else
      var last := rows[|rows| - 1];
      ListView(rows[..|rows| - 1]) + if last.archived then [] else [Summary(last)]
  }

  /** Every listed entry is the summary of a non-archived row. */
  lemma {:induction false} ListViewSound(rows: seq<Row>)
    ensures forall k :: 0 <= k < |ListView(rows)| ==>
      exists i :: 0 <= i < |rows| && !rows[i].archived && ListView(rows)[k] == Summary(rows[i])
  {
    if rows == [] {
      assert ListView(rows) == [];
    } else {
      var init := rows[..|rows| - 1];
      ListViewSound(init);
      var last := rows[|rows| - 1];
      assert ListView(rows) == ListView(init) + if last.archived then [] else [Summary(last)];
      forall k | 0 <= k < |ListView(rows)|
        ensures exists i :: 0 <= i < |rows| && !rows[i].archived && ListView(rows)[k] == Summary(rows[i])
      {
        if k < |ListView(init)| {
          var i :| 0 <= i < |init| && !init[i].archived && ListView(init)[k] == Summary(init[i]);
          assert rows[i] == init[i];
        } else {
          assert ListView(rows)[k] == Summary(rows[|rows| - 1]);
          assert !rows[|rows| - 1].archived;
        }
      }
    }
  }

  /** Every non-archived row is listed. */
  lemma {:induction false} ListViewComplete(rows: seq<Row>)
    ensures forall i :: 0 <= i < |rows| && !rows[i].archived ==> Summary(rows[i]) in ListView(rows)
  {
    if rows != [] {
      var init := rows[..|rows| - 1];
      ListViewComplete(init);
      forall i | 0 <= i < |rows| && !rows[i].archived
        ensures Summary(rows[i]) in ListView(rows)
      {
        if i < |init| {
          assert rows[i] == init[i];
        }
      }
    }
  }

  /** The list has one entry per non-archived row. */
  lemma {:induction false} ListViewLength(rows: seq<Row>)
    ensures |ListView(rows)| == |set i | 0 <= i < |rows| && !rows[i].archived|
  {
    if rows != [] {
      var n := |rows| - 1;
      var init := rows[..n];
      ListViewLength(init);
      var before := set i | 0 <= i < |init| && !init[i].archived;
      var after := set i | 0 <= i < |rows| && !rows[i].archived;
      assert before == set i | 0 <= i < n && !rows[i].archived;
      if rows[n].archived {
        assert after == before;
      } else {
        assert after == before + {n};
      }
    }
  }

  /** Store order is kept: with ids increasing along the table, they increase along the list. */
  lemma {:induction false} ListViewOrdered(rows: seq<Row>)
    requires forall i, j :: 0 <= i < j < |rows| ==> rows[i].id < rows[j].id
    ensures forall a, b :: 0 <= a < b < |ListView(rows)| ==> ListView(rows)[a].id < ListView(rows)[b].id
  {
    if rows != [] {
      var n := |rows| - 1;
      var init := rows[..n];
      ListViewOrdered(init);
      ListViewSound(init);
      var lv := ListView(rows);
      var last := rows[n];
      assert lv == ListView(init) + if last.archived then [] else [Summary(last)];
      forall a, b | 0 <= a < b < |lv| ensures lv[a].id < lv[b].id {
        if b >= |ListView(init)| {
          assert a < |ListView(init)| && lv[a] == ListView(init)[a] && lv[b] == Summary(last);
          var i :| 0 <= i < |init| && !init[i].archived && ListView(init)[a] == Summary(init[i]);
          assert rows[i] == init[i];
        }
      }
    }
  }

  // ---------------------------------------------------------------------------
  // addRequest: the struct built from the body, its message and its row
  // ---------------------------------------------------------------------------

  /**
   * The `Request` `addRequest` builds from the body: `None` when `name` is
   * absent; otherwise the name, and each optional field when present or its
   * zero value ("" or false) when absent.
   */
  function FromPayload(p: Payload): (r: Option<Request>)
    ensures r.None? <==> p.name.None?
    ensures r.Some? ==> r.value.name == p.name.value && r.value.id == 0 && !r.value.archived
    ensures r.Some? ==> r.value.createdAt.None? && r.value.updatedAt.None?
  {
    match p.name
    case None => None
    case Some(name) =>
      Some(Request(0, name, p.description.GetOr(""), p.videoUrl.GetOr(""), p.textUrl.GetOr(""),
                   false, p.processed.GetOr(false), None, None))
  }

  /**
   * `json.Marshal(request)`: the message body, without the id. Everything else
   * survives: the struct is the body read back together with its id.
   */
  function Marshal(r: Request): (j: Job)
    ensures WithId(j, r.id) == r
  {
    Job(r.name, r.description, r.videoUrl, r.textUrl, r.archived, r.processed, r.createdAt, r.updatedAt)
  }

  /** The struct a body decodes to once `id` is supplied. */
  function WithId(j: Job, id: nat): Request {
    Request(id, j.name, j.description, j.videoUrl, j.textUrl, j.archived, j.processed, j.createdAt, j.updatedAt)
  }

  /** The body identifies the struct up to its id: two structs marshal alike exactly when they differ at most in `id`. */
  lemma MarshalForgetsOnlyId(a: Request, b: Request)
    ensures Marshal(a) == Marshal(b) <==> a.(id := 0) == b.(id := 0)
  {
  }

  /** The row `INSERT ... RETURNING id` creates, with the table defaults: not archived, both stamps `t`. */
  function NewRow(id: nat, r: Request, t: nat): (row: Row)
    ensures row.id == id && !row.archived && row.createdAt == t && row.updatedAt == t
  {
    Row(id, r.name, r.description, r.videoUrl, r.textUrl, false, r.processed, t, t)
  }

  /** The stored row and the published body carry the same field values. */
  predicate Agrees(row: Row, j: Job) {
    && row.name == j.name && row.description == j.description
    && row.videoUrl == j.videoUrl && row.textUrl == j.textUrl
    && row.processed == j.processed && row.archived == j.archived
  }

  /**
   * A body with a name yields a row and a message that agree field by field,
   * each field being the body's value or its zero value.
   */
  lemma AddedRowMatchesMessage(p: Payload, id: nat, t: nat)
    requires p.name.Some?
    ensures Agrees(NewRow(id, FromPayload(p).value, t), Marshal(FromPayload(p).value))
    ensures var row := NewRow(id, FromPayload(p).value, t);
      && row.name == p.name.value
      && row.description == p.description.GetOr("") && row.videoUrl == p.videoUrl.GetOr("")
      && row.textUrl == p.textUrl.GetOr("") && row.processed == p.processed.GetOr(false)
  {
  }

  /** A successful insert makes the name exist. */
  lemma AddMakesExist(rows: seq<Row>, row: Row)
    requires !row.archived
    ensures IsExist(rows + [row], row.name)
  {
    CountActiveAppend(rows, row, row.name);
  }

  // ---------------------------------------------------------------------------
  // updRequest: one `UPDATE ... SET <column> = $1, updated_at = now() WHERE id = $2` per present field
  // ---------------------------------------------------------------------------

  datatype Column = DescriptionColumn | ProcessedColumn | TextUrlColumn

  /** One UPDATE statement of `updRequest`. */
  datatype Write =
    | SetDescription(description: string)
    | SetProcessed(processed: bool)
    | SetTextUrl(textUrl: string)

  function ColumnOf(w: Write): Column {
    match w
    case SetDescription(_) => DescriptionColumn
    case SetProcessed(_) => ProcessedColumn
    case SetTextUrl(_) => TextUrlColumn
  }

  /**
   * The statements `updRequest` runs for a body, in its order: description,
   * processed, text_url, each only when present. `name` and `video_url` in the
   * body are ignored.
   */
  function Writes(p: Payload): (ws: seq<Write>)
    ensures |ws| <= 3
  {
    (if p.description.Some? then [SetDescription(p.description.value)] else [])
    + (if p.processed.Some? then [SetProcessed(p.processed.value)] else [])
    + (if p.textUrl.Some? then [SetTextUrl(p.textUrl.value)] else [])
  }

  /** Where each present field's statement sits in `Writes(p)`. */
  lemma WritesLayout(p: Payload)
    ensures |Writes(p)| == (if p.description.Some? then 1 else 0) + (if p.processed.Some? then 1 else 0)
                           + (if p.textUrl.Some? then 1 else 0)
    ensures p.description.Some? ==> Writes(p)[0] == SetDescription(p.description.value)
    ensures p.processed.Some? ==>
      Writes(p)[if p.description.Some? then 1 else 0] == SetProcessed(p.processed.value)
    ensures p.textUrl.Some? ==> Writes(p)[|Writes(p)| - 1] == SetTextUrl(p.textUrl.value)
  {
  }

  /** One statement's effect on a row it matches: its column and `updated_at := t`. */
  function Patch(r: Row, w: Write, t: nat): Row {
    match w
    case SetDescription(d) => r.(description := d, updatedAt := t)
    case SetProcessed(b) => r.(processed := b, updatedAt := t)
    case SetTextUrl(u) => r.(textUrl := u, updatedAt := t)
  }

  /**
   * One statement over the table: every row whose id is `id` is patched. Rows
   * with another id are untouched, and the statement never changes a row's id,
   * name, video url, creation stamp or `archived` flag.
   */
  function WriteById(rows: seq<Row>, id: nat, w: Write, t: nat): (r: seq<Row>)
    ensures |r| == |rows|
    ensures forall i :: 0 <= i < |rows| && rows[i].id != id ==> r[i] == rows[i]
    ensures forall i :: 0 <= i < |rows| ==>
      && r[i].id == rows[i].id && r[i].name == rows[i].name && r[i].videoUrl == rows[i].videoUrl
      && r[i].createdAt == rows[i].createdAt && r[i].archived == rows[i].archived
  {
    seq(|rows|, i requires 0 <= i < |rows| => if rows[i].id == id then Patch(rows[i], w, t) else rows[i])
  }

  /**
   * The statements `ws` run one after another; statement `k` commits at tick
   * `t + k + 1` (`WriteAllEffect` gives the resulting rows).
   */
  function WriteAll(rows: seq<Row>, id: nat, ws: seq<Write>, t: nat): seq<Row> {
    if ws == [] then rows
    else WriteById(WriteAll(rows, id, ws[..|ws| - 1], t), id, ws[|ws| - 1], t + |ws|)
  }

  /** Committing statement `k` after the first `k`: one more statement, at tick `t + k + 1`. */
  lemma WriteAllNext(rows: seq<Row>, id: nat, ws: seq<Write>, k: nat, t: nat)
    requires k < |ws|
    ensures WriteAll(rows, id, ws[..k + 1], t) == WriteById(WriteAll(rows, id, ws[..k], t), id, ws[k], t + k + 1)
  {
    assert ws[..k + 1][..k] == ws[..k];
  }

  /** The description after `ws`: the last one written, else `d`. */
  function DescriptionAfter(d: string, ws: seq<Write>): string {
    if ws == [] then d
    else if ws[|ws| - 1].SetDescription? then ws[|ws| - 1].description
    else DescriptionAfter(d, ws[..|ws| - 1])
  }

  /** The processed flag after `ws`: the last one written, else `b`. */
  function ProcessedAfter(b: bool, ws: seq<Write>): bool {
    if ws == [] then b
    else if ws[|ws| - 1].SetProcessed? then ws[|ws| - 1].processed
    else ProcessedAfter(b, ws[..|ws| - 1])
  }

  /** The text url after `ws`: the last one written, else `u`. */
  function TextUrlAfter(u: string, ws: seq<Write>): string {
    if ws == [] then u
    else if ws[|ws| - 1].SetTextUrl? then ws[|ws| - 1].textUrl
    else TextUrlAfter(u, ws[..|ws| - 1])
  }

  /** What `ws` does to one row: the written columns take their last value and the stamp advances. */
  function Effect(r: Row, id: nat, ws: seq<Write>, t: nat): Row {
    if r.id != id || ws == [] then r
    else r.(description := DescriptionAfter(r.description, ws), processed := ProcessedAfter(r.processed, ws),
            textUrl := TextUrlAfter(r.textUrl, ws), updatedAt := t + |ws|)
  }

  /**
   * Partial-update isolation: running `ws` changes only the rows with id `id`,
   * and on those only description, processed, text_url (each to the last value
   * written to it) and updated_at (to the last statement's tick); name,
   * video_url, archived and created_at are untouched.
   */
  lemma {:induction false} WriteAllEffect(rows: seq<Row>, id: nat, ws: seq<Write>, t: nat)
    ensures |WriteAll(rows, id, ws, t)| == |rows|
    ensures forall i :: 0 <= i < |rows| ==> WriteAll(rows, id, ws, t)[i] == Effect(rows[i], id, ws, t)
  {
    if ws != [] {
      var init := ws[..|ws| - 1];
      var w := ws[|ws| - 1];
      WriteAllEffect(rows, id, init, t);
      var mid := WriteAll(rows, id, init, t);
      assert WriteAll(rows, id, ws, t) == WriteById(mid, id, w, t + |ws|);
      forall i | 0 <= i < |rows| ensures WriteAll(rows, id, ws, t)[i] == Effect(rows[i], id, ws, t) {
        assert mid[i] == Effect(rows[i], id, init, t);
        if rows[i].id == id {
          assert DescriptionAfter(rows[i].description, ws) ==
            if w.SetDescription? then w.description else DescriptionAfter(rows[i].description, init);
          assert ProcessedAfter(rows[i].processed, ws) ==
            if w.SetProcessed? then w.processed else ProcessedAfter(rows[i].processed, init);
          assert TextUrlAfter(rows[i].textUrl, ws) ==
            if w.SetTextUrl? then w.textUrl else TextUrlAfter(rows[i].textUrl, init);
        }
      }
    }
  }

  /** The effect of the body's statements, column by column, in terms of the body. */
  lemma WritesEffect(r: Row, p: Payload, t: nat)
    ensures Effect(r, r.id, Writes(p), t).description == p.description.GetOr(r.description)
    ensures Effect(r, r.id, Writes(p), t).processed == p.processed.GetOr(r.processed)
    ensures Effect(r, r.id, Writes(p), t).textUrl == p.textUrl.GetOr(r.textUrl)
    ensures Effect(r, r.id, Writes(p), t).updatedAt ==
      if Writes(p) == [] then r.updatedAt else t + |Writes(p)|
  {
    WritesColumns(r, p);
  }

  /** Each column ends with the body's value when it carries one, and as it was otherwise. */
  lemma WritesColumns(r: Row, p: Payload)
    ensures DescriptionAfter(r.description, Writes(p)) == p.description.GetOr(r.description)
    ensures ProcessedAfter(r.processed, Writes(p)) == p.processed.GetOr(r.processed)
    ensures TextUrlAfter(r.textUrl, Writes(p)) == p.textUrl.GetOr(r.textUrl)
  {
    var ws := Writes(p);
    if p.textUrl.Some? {
      var w2 := ws[..|ws| - 1];
      assert ws == w2 + [SetTextUrl(p.textUrl.value)];
      AfterSnoc(r, w2, SetTextUrl(p.textUrl.value));
      LeadingWritesColumns(r, p);
    } else {
      LeadingWritesColumns(r, p);
    }
  }

  /** Proof helper for `WritesColumns`: the description and processed statements, which leave text_url alone. */
  lemma LeadingWritesColumns(r: Row, p: Payload)
    ensures var ws := (if p.description.Some? then [SetDescription(p.description.value)] else [])
                      + (if p.processed.Some? then [SetProcessed(p.processed.value)] else []);
      && Writes(p) == ws + (if p.textUrl.Some? then [SetTextUrl(p.textUrl.value)] else [])
      && DescriptionAfter(r.description, ws) == p.description.GetOr(r.description)
      && ProcessedAfter(r.processed, ws) == p.processed.GetOr(r.processed)
      && TextUrlAfter(r.textUrl, ws) == r.textUrl
  {
    var d := if p.description.Some? then [SetDescription(p.description.value)] else [];
    var b := if p.processed.Some? then [SetProcessed(p.processed.value)] else [];
    if p.description.Some? {
      AfterSnoc(r, [], d[0]);
      assert [] + [d[0]] == d;
    }
    if p.processed.Some? {
      AfterSnoc(r, d, b[0]);
      assert d + [b[0]] == d + b;
    } else {
      assert d + b == d;
    }
  }

  /** Proof helper: a statement appended to `ws` decides its own column and leaves the other two as `ws` left them. */
  lemma AfterSnoc(r: Row, ws: seq<Write>, w: Write)
    ensures DescriptionAfter(r.description, ws + [w]) ==
      if w.SetDescription? then w.description else DescriptionAfter(r.description, ws)
    ensures ProcessedAfter(r.processed, ws + [w]) ==
      if w.SetProcessed? then w.processed else ProcessedAfter(r.processed, ws)
    ensures TextUrlAfter(r.textUrl, ws + [w]) ==
      if w.SetTextUrl? then w.textUrl else TextUrlAfter(r.textUrl, ws)
  {
    assert (ws + [w])[..|ws|] == ws;
  }

  /**
   * A body carrying only `processed` sets that flag, leaves description and
   * text_url as they were and advances updated_at.
   */
  lemma OnlyProcessedIsolated(r: Row, b: bool, t: nat)
    ensures var r' := Effect(r, r.id, Writes(Payload(None, None, Some(b), None, None)), t);
      r'.processed == b && r'.description == r.description && r'.textUrl == r.textUrl
      && r'.updatedAt == t + 1 && r'.name == r.name && r'.archived == r.archived
  {
    WritesEffect(r, Payload(None, None, Some(b), None, None), t);
  }

  /**
   * How many of `ws` commit when the statements on the columns in `failing`
   * fail: the ones before the first failing statement.
   */
  function Applied(ws: seq<Write>, failing: set<Column>): (n: nat)
    ensures n <= |ws|
    ensures forall k :: 0 <= k < n ==> ColumnOf(ws[k]) !in failing
    ensures n < |ws| ==> ColumnOf(ws[n]) in failing
  {
    if ws == [] then 0
    else if ColumnOf(ws[0]) in failing then 0
    else 1 + Applied(ws[1..], failing)
  }

  /** Statements after a failing one never commit; with none failing, the next ones are counted on. */
  lemma {:induction false} AppliedAppend(a: seq<Write>, b: seq<Write>, failing: set<Column>)
    ensures Applied(a + b, failing) ==
      if Applied(a, failing) < |a| then Applied(a, failing) else |a| + Applied(b, failing)
  {
    if a != [] {
      assert (a + b)[0] == a[0] && (a + b)[1..] == a[1..] + b;
      if ColumnOf(a[0]) !in failing {
        AppliedAppend(a[1..], b, failing);
      }
    } else {
      assert a + b == b;
    }
  }

  // ---------------------------------------------------------------------------
  // delRequest: `UPDATE requests SET archived = true, updated_at = now() WHERE name = $1`
  // ---------------------------------------------------------------------------

  /**
   * Every row named `name`, archived or not, is archived and stamped `t`: a row
   * ends up archived exactly when it was or carries the name, and rows with
   * another name are untouched.
   */
  function ArchiveByName(rows: seq<Row>, name: string, t: nat): (r: seq<Row>)
    ensures |r| == |rows|
    ensures forall i :: 0 <= i < |rows| ==> r[i].archived == (rows[i].archived || rows[i].name == name)
    ensures forall i :: 0 <= i < |rows| && rows[i].name != name ==> r[i] == rows[i]
    ensures forall i :: 0 <= i < |rows| && rows[i].name == name ==> r[i] == rows[i].(archived := true, updatedAt := t)
  {
    seq(|rows|, i requires 0 <= i < |rows| =>
      if rows[i].name == name then rows[i].(archived := true, updatedAt := t) else rows[i])
  }

  /** After the delete, the name no longer exists. */
  lemma ArchiveHides(rows: seq<Row>, name: string, t: nat)
    ensures !IsExist(ArchiveByName(rows, name, t), name)
  {
    IsExistIff(ArchiveByName(rows, name, t), name);
  }

  /** The delete leaves every other name's existence as it was. */
  lemma ArchiveKeepsOthers(rows: seq<Row>, name: string, other: string, t: nat)
    requires other != name
    ensures IsExist(ArchiveByName(rows, name, t), other) == IsExist(rows, other)
  {
    var rows' := ArchiveByName(rows, name, t);
    IsExistIff(rows', other);
    IsExistIff(rows, other);
    assert forall i :: 0 <= i < |rows| ==> (Active(rows'[i], other) <==> Active(rows[i], other));
  }

  // ---------------------------------------------------------------------------
  // Soft-delete monotonicity
  // ---------------------------------------------------------------------------

  /**
   * `rows'` comes from `rows` by statements of requests.go: rows are never
   * removed or reordered, ids, names, video urls and creation stamps never
   * change, and an archived row stays archived.
   */
  predicate Grows(rows: seq<Row>, rows': seq<Row>) {
    && |rows| <= |rows'|
    && forall i :: 0 <= i < |rows| ==>
      && rows'[i].id == rows[i].id && rows'[i].name == rows[i].name
      && rows'[i].videoUrl == rows[i].videoUrl && rows'[i].createdAt == rows[i].createdAt
      && (rows[i].archived ==> rows'[i].archived)
  }

  lemma GrowsTrans(a: seq<Row>, b: seq<Row>, c: seq<Row>)
    requires Grows(a, b) && Grows(b, c)
    ensures Grows(a, c)
  {
  }

  /** An insert only appends. */
  lemma InsertGrows(rows: seq<Row>, row: Row)
    ensures Grows(rows, rows + [row])
  {
  }

  /** The update statements never touch `archived` (nor ids, names, video urls, creation stamps). */
  lemma WriteAllGrows(rows: seq<Row>, id: nat, ws: seq<Write>, t: nat)
    ensures Grows(rows, WriteAll(rows, id, ws, t))
  {
    WriteAllEffect(rows, id, ws, t);
  }

  /** The delete only ever sets `archived` to true. */
  lemma ArchiveGrows(rows: seq<Row>, name: string, t: nat)
    ensures Grows(rows, ArchiveByName(rows, name, t))
  {
  }

  // ---------------------------------------------------------------------------
  // Well-formedness is kept by every statement
  // ---------------------------------------------------------------------------

  lemma InsertWellFormed(rows: seq<Row>, nextId: nat, clock: nat, r: Request)
    requires WellFormed(rows, nextId, clock)
    ensures WellFormed(rows + [NewRow(nextId, r, clock + 1)], nextId + 1, clock + 1)
  {
  }

  lemma WriteAllWellFormed(rows: seq<Row>, nextId: nat, clock: nat, id: nat, ws: seq<Write>)
    requires WellFormed(rows, nextId, clock)
    ensures WellFormed(WriteAll(rows, id, ws, clock), nextId, clock + |ws|)
  {
    WriteAllEffect(rows, id, ws, clock);
  }

  lemma WriteByIdWellFormed(rows: seq<Row>, nextId: nat, clock: nat, id: nat, w: Write)
    requires WellFormed(rows, nextId, clock)
    ensures WellFormed(WriteById(rows, id, w, clock + 1), nextId, clock + 1)
  {
    WriteAllWellFormed(rows, nextId, clock, id, [w]);
    assert [w][..0] == [];
  }

  lemma ArchiveWellFormed(rows: seq<Row>, nextId: nat, clock: nat, name: string)
    requires WellFormed(rows, nextId, clock)
    ensures WellFormed(ArchiveByName(rows, name, clock + 1), nextId, clock + 1)
  {
  }
}
