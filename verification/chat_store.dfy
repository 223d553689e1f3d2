/**
  The chat-history table: one row per question, the assistant's reply stored
  in the same row. The SQL table is a sequence of rows in id order with an
  auto-increment counter; every operation is one atomic step over it.
 */
module ChatStore {
  import opened Wrappers
  import Text

  /** The roles a chat message can carry. */
  datatype Role = System | User | Assistant | Function | Tool | Chatbot | Model

  /** A chat message; its content may be absent. */
  datatype Message = Message(role: Role, content: Option<string>)

  /** A row: `id`, `chat_store_key`, and the nullable `user_input` and `response`. */
  datatype Row = Row(id: nat, key: string, userInput: Option<string>, response: Option<string>)

  /** The table: its rows in ascending id order, and the next auto-increment id. */
  datatype Table = Table(rows: seq<Row>, nextId: nat)

  /** Ids strictly increase along the rows. */
  predicate IdsAscending(rows: seq<Row>) {
    forall i, j :: 0 <= i < j < |rows| ==> rows[i].id < rows[j].id
  }

  /** Every id is below `bound`. */
  predicate IdsBelow(rows: seq<Row>, bound: nat) {
    forall x :: x in rows ==> x.id < bound
  }

  /** Every table the operations produce: ids strictly increase and stay below the counter. */
  predicate Wf(t: Table) {
    IdsAscending(t.rows) && IdsBelow(t.rows, t.nextId)
  }

  // ---------------------------------------------------------------------------
  // Row-level statements
  // ---------------------------------------------------------------------------

  /** `INSERT`: a new row with the next id; the id is returned as `lastrowid`. */
  function Insert(t: Table, key: string, userInput: Option<string>, response: Option<string>): (Table, nat) {
    (Table(t.rows + [Row(t.nextId, key, userInput, response)], t.nextId + 1), t.nextId)
  }

  /** `UPDATE ... SET response = :resp WHERE id = :id` */
  function SetResponse(rows: seq<Row>, id: nat, resp: Option<string>): (r: seq<Row>) {
    seq(|rows|, i requires 0 <= i < |rows| => if rows[i].id == id then rows[i].(response := resp) else rows[i])
  }

  /** `DELETE ... WHERE id = :id` */
  function DeleteId(rows: seq<Row>, id: nat): (r: seq<Row>)
    ensures forall x :: x in r ==> x in rows
  {
    if |rows| == 0 then []
    else DeleteId(rows[..|rows| - 1], id) + (if Last(rows).id == id then [] else [Last(rows)])
  }

  /** The rows of every other key: `DELETE ... WHERE chat_store_key = :key` leaves exactly these. */
  function WithoutKey(rows: seq<Row>, key: string): (r: seq<Row>)
    ensures forall x :: x in r ==> x in rows && x.key != key
  {
    if |rows| == 0 then []
    else WithoutKey(rows[..|rows| - 1], key) + (if Last(rows).key == key then [] else [Last(rows)])
  }

  // ---------------------------------------------------------------------------
  // Reading
  // ---------------------------------------------------------------------------

  /** A row's messages: the question if `user_input` is not null, then the reply if `response` is not null. */
  function RowMessages(r: Row): seq<Message> {
    (if r.userInput.Some? then [Message(User, r.userInput)] else []) +
    (if r.response.Some? then [Message(Assistant, r.response)] else [])
  }

  /** The messages of `key`'s rows, walked in id order. */
  function Messages(rows: seq<Row>, key: string): seq<Message> {
    if |rows| == 0 then []
    else Messages(rows[..|rows| - 1], key) + (if Last(rows).key == key then RowMessages(Last(rows)) else [])
  }

  /** A list as `get_messages` can return it: user or assistant roles, content present. */
  predicate Canonical(ms: seq<Message>) {
    forall i :: 0 <= i < |ms| ==> (ms[i].role == User || ms[i].role == Assistant) && ms[i].content.Some?
  }

  /** `get_messages` */
  function GetMessages(t: Table, key: string): (ms: seq<Message>)
    ensures Canonical(ms)
  {
    MessagesCanonical(t.rows, key);
    Messages(t.rows, key)
  }

  lemma {:induction false} MessagesCanonical(rows: seq<Row>, key: string)
    ensures Canonical(Messages(rows, key))
  {
    if |rows| > 0 {
      MessagesCanonical(rows[..|rows| - 1], key);
    }
  }

  /** `get_keys`: every key that has a row, once each (in order of first appearance). */
  function GetKeys(t: Table): (ks: seq<string>)
    ensures Text.Distinct(ks)
    ensures forall k :: k in ks <==> exists i :: 0 <= i < |t.rows| && t.rows[i].key == k
  {
    KeysOf(t.rows)
  }

  function KeysOf(rows: seq<Row>): (ks: seq<string>)
    ensures Text.Distinct(ks)
    ensures forall k :: k in ks <==> exists i :: 0 <= i < |rows| && rows[i].key == k
  {
    if |rows| == 0 then []
    else
      var front := rows[..|rows| - 1];
      var ks := KeysOf(front);
      assert forall i :: 0 <= i < |front| ==> front[i] == rows[i];
      if Last(rows).key in ks then ks else ks + [Last(rows).key]
  }

  // ---------------------------------------------------------------------------
  // Writing
  // ---------------------------------------------------------------------------

  /** Roles as they come back from the table: anything but a user reads as the assistant. */
  function NormalizeOne(m: Message): Message {
    Message(if m.role == User then User else Assistant, m.content)
  }

  function Normalize(ms: seq<Message>): (r: seq<Message>)
    ensures |r| == |ms|
    ensures forall i :: 0 <= i < |ms| ==> r[i] == NormalizeOne(ms[i])
  {
    if |ms| == 0 then [] else [NormalizeOne(ms[0])] + Normalize(ms[1..])
  }

  /**
    One message of the insertion loop of `set_messages`. `current` is the id
    of the row inserted for the latest question that no reply has filled yet.
   */
  function Step(t: Table, key: string, m: Message, current: Option<nat>): (Table, Option<nat>) {
    if m.role == User then
      var (t1, id) := Insert(t, key, m.content, None);
      (t1, Some(id))
    else if current.Some? then
      (Table(SetResponse(t.rows, current.value, m.content), t.nextId), None)
    else
      (Insert(t, key, None, m.content).0, None)
  }

  /** The insertion loop of `set_messages`. */
  function Repack(t: Table, key: string, ms: seq<Message>, current: Option<nat>): (r: Table)
    ensures t.nextId <= r.nextId
    decreases |ms|
  {
    if |ms| == 0 then t
    else
      var (t1, c1) := Step(t, key, ms[0], current);
      Repack(t1, key, ms[1..], c1)
  }

  /** `set_messages`: the key's rows are deleted, then the messages are packed in again. */
  function SetMessages(t: Table, key: string, ms: seq<Message>): (r: Table)
    ensures t.nextId <= r.nextId
  {
    Repack(Table(WithoutKey(t.rows, key), t.nextId), key, ms, None)
  }

  /** The latest row of `key` with a question and no reply, if any. */
  function PendingIndex(rows: seq<Row>, key: string): (r: Option<nat>)
    ensures r.Some? ==> r.value < |rows| && rows[r.value].key == key && rows[r.value].userInput.Some? && rows[r.value].response.None?
    ensures r.Some? ==> forall j :: r.value < j < |rows| && rows[j].key == key ==> !(rows[j].userInput.Some? && rows[j].response.None?)
    ensures r.None? ==> forall j :: 0 <= j < |rows| && rows[j].key == key ==> !(rows[j].userInput.Some? && rows[j].response.None?)
  {
    if |rows| == 0 then None
    else
      var n := |rows| - 1;
      if rows[n].key == key && rows[n].userInput.Some? && rows[n].response.None? then Some(n)
      else PendingIndex(rows[..n], key)
  }

  /**
    `add_message`: a question always gets a new row; a reply fills the latest
    pending question of the key, or gets a reply-only row when none is pending.
   */
  function AddMessage(t: Table, key: string, m: Message): (t': Table)
    ensures m.role == User ==>
              GetMessages(t', key) == GetMessages(t, key) + (if m.content.Some? then [m] else [])
    ensures m.role != User && PendingIndex(t.rows, key).None? ==>
              GetMessages(t', key) == GetMessages(t, key) + (if m.content.Some? then [Message(Assistant, m.content)] else [])
    ensures m.role == User || PendingIndex(t.rows, key).None? ==>
              forall k :: k != key ==> GetMessages(t', k) == GetMessages(t, k)
  {
    if m.role == User then
      AppendRow(t.rows, Row(t.nextId, key, m.content, None));
      Insert(t, key, m.content, None).0
    else
      match PendingIndex(t.rows, key)
      case Some(i) => Table(SetResponse(t.rows, t.rows[i].id, m.content), t.nextId)
      case None =>
        AppendRow(t.rows, Row(t.nextId, key, None, m.content));
        Insert(t, key, None, m.content).0
  }

  /** `delete_messages`: every row of the key goes, every other row stays. */
  function DeleteMessages(t: Table, key: string): (t': Table)
    ensures GetMessages(t', key) == []
    ensures forall k :: k != key ==> GetMessages(t', k) == GetMessages(t, k)
  {
    WithoutKeyMessages(t.rows, key);
    Table(WithoutKey(t.rows, key), t.nextId)
  }

  /** The last row of `key`, if any. */
  function LastIndex(rows: seq<Row>, key: string): (r: Option<nat>)
    ensures r.Some? ==> r.value < |rows| && rows[r.value].key == key
    ensures r.Some? ==> forall j :: r.value < j < |rows| ==> rows[j].key != key
    ensures r.None? ==> forall j :: 0 <= j < |rows| ==> rows[j].key != key
  {
    if |rows| == 0 then None
    else if Last(rows).key == key then Some(|rows| - 1)
    else LastIndex(rows[..|rows| - 1], key)
  }

  /** Python truthiness of a nullable text column: not null and not empty. */
  predicate Truthy(v: Option<string>) {
    v.Some? && v.value != ""
  }

  /**
    `delete_last_message` as written: it decides by truthiness, so a column
    holding the empty string counts as absent.
   */
  function DeleteLastMessageAsWritten(t: Table, key: string): (r: (Option<Message>, Table))
    ensures LastIndex(t.rows, key).None? ==> r == (None, t)
    ensures r.1.nextId == t.nextId
    ensures r.0.Some? ==> Truthy(r.0.value.content)
  {
    match LastIndex(t.rows, key)
    case None => (None, t)
    case Some(i) =>
      var r := t.rows[i];
      if Truthy(r.userInput) && Truthy(r.response) then
        (Some(Message(Assistant, r.response)), Table(SetResponse(t.rows, r.id, None), t.nextId))
      else
        var t' := Table(DeleteId(t.rows, r.id), t.nextId);
        if Truthy(r.userInput) then (Some(Message(User, r.userInput)), t')
        else if Truthy(r.response) then (Some(Message(Assistant, r.response)), t')
        else (None, t')
  }

  /**
    `delete_last_message` with the null tests `get_messages` uses: a reply is
    cleared from a row that also has a question, otherwise the row goes and
    its one message (if any) is returned.
   */
  function DeleteLastMessage(t: Table, key: string): (Option<Message>, Table) {
    match LastIndex(t.rows, key)
    case None => (None, t)
    case Some(i) =>
      var r := t.rows[i];
      if r.userInput.Some? && r.response.Some? then
        (Some(Message(Assistant, r.response)), Table(SetResponse(t.rows, r.id, None), t.nextId))
      else
        var t' := Table(DeleteId(t.rows, r.id), t.nextId);
        if r.userInput.Some? then (Some(Message(User, r.userInput)), t')
        else if r.response.Some? then (Some(Message(Assistant, r.response)), t')
        else (None, t')
  }

  /**
    `delete_message`: an index outside the history changes nothing; otherwise
    the history is stored again without that message.
   */
  function DeleteMessage(t: Table, key: string, idx: int): (r: (Option<Message>, Table))
    ensures idx < 0 || idx >= |GetMessages(t, key)| ==> r == (None, t)
    ensures 0 <= idx < |GetMessages(t, key)| ==> r.0 == Some(GetMessages(t, key)[idx])
  {
    var ms := GetMessages(t, key);
    if idx < 0 || idx >= |ms| then (None, t)
    else (Some(ms[idx]), SetMessages(t, key, ms[..idx] + ms[idx + 1..]))
  }

  // ---------------------------------------------------------------------------
  // Helper facts about rows
  // ---------------------------------------------------------------------------

  /** Appending a row appends its messages to its own key's history only. */
  lemma {:induction false} AppendRow(rows: seq<Row>, r: Row)
    ensures forall k :: Messages(rows + [r], k) == Messages(rows, k) + (if r.key == k then RowMessages(r) else [])
    ensures forall k :: WithoutKey(rows + [r], k) == WithoutKey(rows, k) + (if r.key == k then [] else [r])
  {
    assert (rows + [r])[..|rows|] == rows;
  }

  /** Dropping a key's rows empties its history and keeps every other key's. */
  lemma {:induction false} WithoutKeyMessages(rows: seq<Row>, key: string)
    ensures Messages(WithoutKey(rows, key), key) == []
    ensures forall k :: k != key ==> Messages(WithoutKey(rows, key), k) == Messages(rows, k)
  {
    if |rows| > 0 {
      var front, x := rows[..|rows| - 1], Last(rows);
      var kept := WithoutKey(front, key);
      WithoutKeyMessages(front, key);
      if x.key != key {
        assert WithoutKey(rows, key) == kept + [x];
        AppendRow(kept, x);
        forall k | k != key
          ensures Messages(WithoutKey(rows, key), k) == Messages(rows, k)
        {
          LastRowSplit(rows, k);
        }
      } else {
        assert WithoutKey(rows, key) == kept + [];
        assert kept + [] == kept;
        forall k | k != key
          ensures Messages(rows, k) == Messages(front, k)
        {
          LastRowSplit(rows, k);
          assert Messages(front, k) + [] == Messages(front, k);
        }
      }
    }
  }

  lemma {:induction false} MessagesConcat(a: seq<Row>, b: seq<Row>, key: string)
    ensures Messages(a + b, key) == Messages(a, key) + Messages(b, key)
    decreases |b|
  {
    if |b| == 0 {
      assert a + b == a;
    } else {
      var b' := b[..|b| - 1];
      MessagesConcat(a, b', key);
      assert (a + b)[..|a + b| - 1] == a + b';
      assert Last(a + b) == Last(b);
      AppendAssoc(Messages(a, key), Messages(b', key), (if Last(b).key == key then RowMessages(Last(b)) else []));
    }
  }

  lemma {:induction false} DeleteIdConcat(a: seq<Row>, b: seq<Row>, id: nat)
    ensures DeleteId(a + b, id) == DeleteId(a, id) + DeleteId(b, id)
    decreases |b|
  {
    if |b| == 0 {
      assert a + b == a;
    } else {
      var b' := b[..|b| - 1];
      DeleteIdConcat(a, b', id);
      assert (a + b)[..|a + b| - 1] == a + b';
      assert Last(a + b) == Last(b);
      AppendAssoc(DeleteId(a, id), DeleteId(b', id), (if Last(b).id == id then [] else [Last(b)]));
    }
  }

  lemma {:induction false} DeleteIdAbsent(rows: seq<Row>, id: nat)
    requires forall j :: 0 <= j < |rows| ==> rows[j].id != id
    ensures DeleteId(rows, id) == rows
  {
    if |rows| > 0 {
      DeleteIdAbsent(rows[..|rows| - 1], id);
    }
  }

  /** A key's history does not see rows of other keys. */
  lemma {:induction false} MessagesNoKey(rows: seq<Row>, key: string)
    requires forall j :: 0 <= j < |rows| ==> rows[j].key != key
    ensures Messages(rows, key) == []
  {
    if |rows| > 0 {
      MessagesNoKey(rows[..|rows| - 1], key);
    }
  }

  /** With unique ids, `UPDATE ... WHERE id` changes exactly the row holding that id. */
  lemma {:induction false} SetResponseAt(rows: seq<Row>, i: nat, v: Option<string>)
    requires i < |rows|
    requires forall j :: 0 <= j < |rows| && j != i ==> rows[j].id != rows[i].id
    ensures SetResponse(rows, rows[i].id, v) == rows[i := rows[i].(response := v)]
  {
  }

  /** With unique ids, `DELETE ... WHERE id` removes exactly the row holding that id. */
  lemma {:induction false} DeleteIdAt(rows: seq<Row>, i: nat)
    requires i < |rows|
    requires forall j :: 0 <= j < |rows| && j != i ==> rows[j].id != rows[i].id
    ensures DeleteId(rows, rows[i].id) == rows[..i] + rows[i + 1..]
  {
    var id := rows[i].id;
    var pre, mid, post := rows[..i], [rows[i]], rows[i + 1..];
    assert rows == pre + (mid + post);
    DeleteIdConcat(pre, mid + post, id);
    DeleteIdConcat(mid, post, id);
    assert forall j :: 0 <= j < |pre| ==> pre[j].id != id by {
      forall j | 0 <= j < |pre| ensures pre[j].id != id {
        assert pre[j] == rows[j];
      }
    }
    assert forall j :: 0 <= j < |post| ==> post[j].id != id by {
      forall j | 0 <= j < |post| ensures post[j].id != id {
        assert post[j] == rows[i + 1 + j];
      }
    }
    DeleteIdAbsent(pre, id);
    DeleteIdAbsent(post, id);
    assert mid[..0] == [];
    assert DeleteId(mid, id) == [];
    assert [] + post == post;
  }

  /** Replacing one row by another changes only that row's contribution. */
  lemma {:induction false} ReplaceRowMessages(rows: seq<Row>, i: nat, x: Row, k: string)
    requires i < |rows|
    ensures Messages(rows[i := x], k) == Messages(rows[..i], k) + Messages([x], k) + Messages(rows[i + 1..], k)
    ensures Messages(rows, k) == Messages(rows[..i], k) + Messages([rows[i]], k) + Messages(rows[i + 1..], k)
  {
    assert rows[i := x] == rows[..i] + [x] + rows[i + 1..];
    assert rows == rows[..i] + [rows[i]] + rows[i + 1..];
    MessagesConcat(rows[..i] + [x], rows[i + 1..], k);
    MessagesConcat(rows[..i], [x], k);
    MessagesConcat(rows[..i] + [rows[i]], rows[i + 1..], k);
    MessagesConcat(rows[..i], [rows[i]], k);
  }

  lemma {:induction false} SingleRowMessages(x: Row, k: string)
    ensures Messages([x], k) == if x.key == k then RowMessages(x) else []
  {
    assert [x][..0] == [];
  }

  /** A row of another key, appended, is kept. */
  lemma {:induction false} WithoutKeySnoc(rows: seq<Row>, x: Row, key: string)
    requires x.key != key
    ensures WithoutKey(rows + [x], key) == WithoutKey(rows, key) + [x]
  {
    assert (rows + [x])[..|rows|] == rows;
    assert Last(rows + [x]) == x;
  }

  /** Deleting a key's rows twice is deleting them once. */
  lemma {:induction false} WithoutKeyTwice(rows: seq<Row>, key: string)
    ensures WithoutKey(WithoutKey(rows, key), key) == WithoutKey(rows, key)
  {
    if |rows| > 0 {
      var front := rows[..|rows| - 1];
      WithoutKeyTwice(front, key);
      var kept := WithoutKey(front, key);
      if Last(rows).key == key {
        assert WithoutKey(rows, key) == kept + [];
        assert kept + [] == kept;
      } else {
        assert WithoutKey(rows, key) == kept + [Last(rows)];
        WithoutKeySnoc(kept, Last(rows), key);
      }
    }
  }

  // ---------------------------------------------------------------------------
  // Well-formedness is kept by every operation
  // ---------------------------------------------------------------------------

  /** Keeping some of the rows, in order, keeps the ids ascending. */
  lemma {:induction false} WithoutKeyAscending(rows: seq<Row>, key: string)
    requires IdsAscending(rows)
    ensures IdsAscending(WithoutKey(rows, key))
  {
    if |rows| > 0 {
      var front := rows[..|rows| - 1];
      WithoutKeyAscending(front, key);
      var w := WithoutKey(front, key);
      forall x | x in w
        ensures x.id < Last(rows).id
      {
        var j :| 0 <= j < |front| && front[j] == x;
      }
    }
  }

  lemma {:induction false} DeleteIdAscending(rows: seq<Row>, id: nat)
    requires IdsAscending(rows)
    ensures IdsAscending(DeleteId(rows, id))
  {
    if |rows| > 0 {
      var front := rows[..|rows| - 1];
      DeleteIdAscending(front, id);
      var w := DeleteId(front, id);
      forall x | x in w
        ensures x.id < Last(rows).id
      {
        var j :| 0 <= j < |front| && front[j] == x;
      }
    }
  }

  lemma {:induction false} SetResponseWf(t: Table, id: nat, v: Option<string>)
    requires Wf(t)
    ensures Wf(Table(SetResponse(t.rows, id, v), t.nextId))
  {
    var r := SetResponse(t.rows, id, v);
    forall x | x in r
      ensures x.id < t.nextId
    {
      var j :| 0 <= j < |r| && r[j] == x;
      assert t.rows[j] in t.rows;
    }
  }

  lemma {:induction false} InsertWf(t: Table, key: string, u: Option<string>, v: Option<string>)
    requires Wf(t)
    ensures Wf(Insert(t, key, u, v).0)
  {
    var r := Insert(t, key, u, v).0.rows;
    forall i | 0 <= i < |t.rows|
      ensures r[i].id < t.nextId
    {
      assert t.rows[i] in t.rows;
    }
  }

  lemma {:induction false} RepackWf(t: Table, key: string, ms: seq<Message>, current: Option<nat>)
    requires Wf(t)
    ensures Wf(Repack(t, key, ms, current))
    decreases |ms|
  {
    if |ms| > 0 {
      var m := ms[0];
      if m.role == User {
        InsertWf(t, key, m.content, None);
      } else if current.Some? {
        SetResponseWf(t, current.value, m.content);
      } else {
        InsertWf(t, key, None, m.content);
      }
      var (t1, c1) := Step(t, key, m, current);
      RepackWf(t1, key, ms[1..], c1);
    }
  }

  lemma {:induction false} SetMessagesWf(t: Table, key: string, ms: seq<Message>)
    requires Wf(t)
    ensures Wf(SetMessages(t, key, ms))
  {
    WithoutKeyAscending(t.rows, key);
    RepackWf(Table(WithoutKey(t.rows, key), t.nextId), key, ms, None);
  }

  lemma {:induction false} DeleteIdWf(t: Table, id: nat)
    requires Wf(t)
    ensures Wf(Table(DeleteId(t.rows, id), t.nextId))
  {
    DeleteIdAscending(t.rows, id);
  }

  lemma {:induction false} AddMessageWf(t: Table, key: string, m: Message)
    requires Wf(t)
    ensures Wf(AddMessage(t, key, m))
  {
    if m.role == User {
      InsertWf(t, key, m.content, None);
    } else if PendingIndex(t.rows, key).Some? {
      SetResponseWf(t, t.rows[PendingIndex(t.rows, key).value].id, m.content);
    } else {
      InsertWf(t, key, None, m.content);
    }
  }

  lemma {:induction false} DeleteMessagesWf(t: Table, key: string)
    requires Wf(t)
    ensures Wf(DeleteMessages(t, key))
  {
    WithoutKeyAscending(t.rows, key);
  }

  lemma {:induction false} DeleteLastMessageWf(t: Table, key: string)
    requires Wf(t)
    ensures Wf(DeleteLastMessage(t, key).1)
    ensures Wf(DeleteLastMessageAsWritten(t, key).1)
  {
    match LastIndex(t.rows, key) {
      case None =>
      case Some(i) =>
        SetResponseWf(t, t.rows[i].id, None);
        DeleteIdWf(t, t.rows[i].id);
    }
  }

  lemma {:induction false} DeleteMessageWf(t: Table, key: string, idx: int)
    requires Wf(t)
    ensures Wf(DeleteMessage(t, key, idx).1)
  {
    var h := GetMessages(t, key);
    if 0 <= idx < |h| {
      SetMessagesWf(t, key, h[..idx] + h[idx + 1..]);
    }
  }

  // ---------------------------------------------------------------------------
  // Round trip and framing of set_messages
  // ---------------------------------------------------------------------------

  /** Every message carries content. */
  predicate AllHaveContent(ms: seq<Message>) {
    forall i :: 0 <= i < |ms| ==> ms[i].content.Some?
  }

  /** The row a pending question id names: the key's last row, still without a reply. */
  predicate PendingLast(t: Table, key: string, current: Option<nat>) {
    current.Some? ==> |t.rows| > 0 && Last(t.rows).id == current.value && Last(t.rows).key == key && Last(t.rows).response.None?
  }

  /**
    One packing step adds one row of the key at the end, or rewrites the
    key's last row; either way the other keys' rows are kept and the
    table stays well formed.
   */
  lemma {:induction false} StepShape(t: Table, key: string, m: Message, current: Option<nat>)
    requires Wf(t)
    requires PendingLast(t, key, current)
    ensures var t1 := Step(t, key, m, current).0;
            && Wf(t1)
            && PendingLast(t1, key, Step(t, key, m, current).1)
            && |t1.rows| > 0 && Last(t1.rows).key == key
            && t1.rows[..|t1.rows| - 1] == (if m.role == User || current.None? then t.rows else t.rows[..|t.rows| - 1])
            && (m.role == User || current.None? ==> RowMessages(Last(t1.rows)) == if m.content.Some? then [NormalizeOne(m)] else [])
            && (m.role != User && current.Some? ==>
                  RowMessages(Last(t1.rows)) == RowMessages(Last(t.rows)) + if m.content.Some? then [NormalizeOne(m)] else [])
  {
    if m.role == User || current.None? {
      StepInserts(t, key, m, current);
    } else {
      StepFillsReply(t, key, m, current);
    }
  }

  /** A question, or a reply with nothing pending, is a new last row of the key. */
  lemma {:induction false} StepInserts(t: Table, key: string, m: Message, current: Option<nat>)
    requires Wf(t)
    requires m.role == User || current.None?
    ensures var t1 := Step(t, key, m, current).0;
            && Wf(t1)
            && PendingLast(t1, key, Step(t, key, m, current).1)
            && |t1.rows| > 0 && Last(t1.rows).key == key
            && t1.rows[..|t1.rows| - 1] == t.rows
            && RowMessages(Last(t1.rows)) == if m.content.Some? then [NormalizeOne(m)] else []
  {
    var u, v := if m.role == User then m.content else None, if m.role == User then None else m.content;
    InsertWf(t, key, u, v);
    var x := Row(t.nextId, key, u, v);
    var t1 := Step(t, key, m, current).0;
    assert t1.rows == t.rows + [x];
    assert Last(t1.rows) == x;
    assert t1.rows[..|t1.rows| - 1] == t.rows;
  }

  /** A reply with a question pending fills that question's row, the key's last. */
  lemma {:induction false} StepFillsReply(t: Table, key: string, m: Message, current: Option<nat>)
    requires Wf(t)
    requires PendingLast(t, key, current)
    requires m.role != User && current.Some?
    ensures var t1 := Step(t, key, m, current).0;
            && Wf(t1)
            && PendingLast(t1, key, Step(t, key, m, current).1)
            && |t1.rows| > 0 && Last(t1.rows).key == key
            && t1.rows[..|t1.rows| - 1] == t.rows[..|t.rows| - 1]
            && RowMessages(Last(t1.rows)) == RowMessages(Last(t.rows)) + if m.content.Some? then [NormalizeOne(m)] else []
  {
    var t1 := Step(t, key, m, current).0;
    var n := |t.rows| - 1;
    SetResponseWf(t, current.value, m.content);
    UniqueIds(t.rows, n);
    SetResponseAt(t.rows, n, m.content);
    var x := t.rows[n].(response := m.content);
    assert t1.rows == t.rows[n := x];
    assert Last(t1.rows) == x;
    assert t1.rows[..n] == t.rows[..n];
    assert NormalizeOne(m) == Message(Assistant, m.content);
  }

  /** One packing step keeps the table well formed and the pending id pointing at the last row. */
  lemma {:induction false} StepWf(t: Table, key: string, m: Message, current: Option<nat>)
    requires Wf(t)
    requires PendingLast(t, key, current)
    ensures Wf(Step(t, key, m, current).0)
    ensures PendingLast(Step(t, key, m, current).0, key, Step(t, key, m, current).1)
  {
    StepShape(t, key, m, current);
  }

  /** A table whose last row is `x` reads as the rows before it, then `x`. */
  lemma {:induction false} LastRowSplit(rows: seq<Row>, k: string)
    requires |rows| > 0
    ensures Messages(rows, k) == Messages(rows[..|rows| - 1], k) + (if Last(rows).key == k then RowMessages(Last(rows)) else [])
    ensures WithoutKey(rows, k) == WithoutKey(rows[..|rows| - 1], k) + (if Last(rows).key == k then [] else [Last(rows)])
  {
  }

  /** One packing step keeps the other keys' rows. */
  lemma {:induction false} StepFrame(t: Table, key: string, m: Message, current: Option<nat>)
    requires Wf(t)
    requires PendingLast(t, key, current)
    ensures WithoutKey(Step(t, key, m, current).0.rows, key) == WithoutKey(t.rows, key)
  {
    var t1 := Step(t, key, m, current).0;
    StepShape(t, key, m, current);
    LastRowSplit(t1.rows, key);
    if m.role != User && current.Some? {
      LastRowSplit(t.rows, key);
    }
  }

  /** One packing step appends the (role-normalized) message to the key's history. */
  lemma {:induction false} StepMessages(t: Table, key: string, m: Message, current: Option<nat>)
    requires Wf(t)
    requires PendingLast(t, key, current)
    requires m.content.Some?
    ensures Messages(Step(t, key, m, current).0.rows, key) == Messages(t.rows, key) + [NormalizeOne(m)]
  {
    var t1 := Step(t, key, m, current).0;
    StepShape(t, key, m, current);
    LastRowSplit(t1.rows, key);
    var front1 := t1.rows[..|t1.rows| - 1];
    if m.role == User || current.None? {
      assert front1 == t.rows;
    } else {
      LastRowSplit(t.rows, key);
      var front := t.rows[..|t.rows| - 1];
      assert front1 == front && Last(t.rows).key == key;
      AppendAssoc(Messages(front, key), RowMessages(Last(t.rows)), [NormalizeOne(m)]);
    }
  }

  /** The packing loop keeps the other keys' rows and a well-formed table. */
  lemma {:induction false} RepackFrame(t: Table, key: string, ms: seq<Message>, current: Option<nat>)
    requires Wf(t)
    requires PendingLast(t, key, current)
    ensures WithoutKey(Repack(t, key, ms, current).rows, key) == WithoutKey(t.rows, key)
    decreases |ms|
  {
    if |ms| > 0 {
      var st := Step(t, key, ms[0], current);
      StepWf(t, key, ms[0], current);
      StepFrame(t, key, ms[0], current);
      RepackFrame(st.0, key, ms[1..], st.1);
    }
  }

  /** The first packing step, stated through what the rest of the loop needs of it. */
  lemma {:induction false} RepackFirstStep(t: Table, key: string, ms: seq<Message>, current: Option<nat>)
    requires Wf(t)
    requires PendingLast(t, key, current)
    requires |ms| > 0 && ms[0].content.Some?
    ensures exists t1: Table, c1: Option<nat> ::
              && Repack(t, key, ms, current) == Repack(t1, key, ms[1..], c1)
              && Wf(t1) && PendingLast(t1, key, c1)
              && Messages(t1.rows, key) == Messages(t.rows, key) + [NormalizeOne(ms[0])]
  {
    var st := Step(t, key, ms[0], current);
    StepWf(t, key, ms[0], current);
    StepMessages(t, key, ms[0], current);
    assert Repack(t, key, ms, current) == Repack(st.0, key, ms[1..], st.1);
  }

  /**
    The packing loop appends the (role-normalized) messages to the key's
    history when every message carries content.
   */
  lemma {:induction false} RepackMessages(t: Table, key: string, ms: seq<Message>, current: Option<nat>)
    requires Wf(t)
    requires PendingLast(t, key, current)
    requires AllHaveContent(ms)
    ensures Messages(Repack(t, key, ms, current).rows, key) == Messages(t.rows, key) + Normalize(ms)
    decreases |ms|
  {
    if |ms| == 0 {
      assert Normalize(ms) == [];
    } else {
      RepackFirstStep(t, key, ms, current);
      var t1: Table, c1: Option<nat> :|
        && Repack(t, key, ms, current) == Repack(t1, key, ms[1..], c1)
        && Wf(t1) && PendingLast(t1, key, c1)
        && Messages(t1.rows, key) == Messages(t.rows, key) + [NormalizeOne(ms[0])];
      assert AllHaveContent(ms[1..]);
      RepackMessages(t1, key, ms[1..], c1);
      AppendAssoc(Messages(t.rows, key), [NormalizeOne(ms[0])], Normalize(ms[1..]));
    }
  }

  lemma {:induction false} AppendAssoc<T>(a: seq<T>, b: seq<T>, c: seq<T>)
    ensures (a + b) + c == a + (b + c)
  {
    assert |(a + b) + c| == |a + (b + c)|;
  }

  /**
    Round trip: when every message has content, reading a key back after
    `set_messages` gives the messages that were set, with every non-user
    role read as the assistant.
   */
  lemma {:induction false} SetThenGet(t: Table, key: string, ms: seq<Message>)
    requires Wf(t)
    requires AllHaveContent(ms)
    ensures GetMessages(SetMessages(t, key, ms), key) == Normalize(ms)
  {
    WithoutKeyAscending(t.rows, key);
    WithoutKeyMessages(t.rows, key);
    RepackMessages(Table(WithoutKey(t.rows, key), t.nextId), key, ms, None);
  }

  /** `set_messages` deletes and inserts only rows of its own key. */
  lemma {:induction false} SetMessagesFrame(t: Table, key: string, ms: seq<Message>)
    requires Wf(t)
    ensures WithoutKey(SetMessages(t, key, ms).rows, key) == WithoutKey(t.rows, key)
    ensures forall k :: k != key ==> GetMessages(SetMessages(t, key, ms), k) == GetMessages(t, k)
  {
    var t0 := Table(WithoutKey(t.rows, key), t.nextId);
    WithoutKeyAscending(t.rows, key);
    RepackFrame(t0, key, ms, None);
    WithoutKeyTwice(t.rows, key);
    var r := SetMessages(t, key, ms).rows;
    WithoutKeyMessages(r, key);
    WithoutKeyMessages(t.rows, key);
  }

  /** A list read back from the table is its own normal form. */
  lemma {:induction false} NormalizeCanonical(ms: seq<Message>)
    requires Canonical(ms)
    ensures Normalize(ms) == ms
    ensures AllHaveContent(ms)
  {
  }

  // ---------------------------------------------------------------------------
  // add_message, delete_last_message and delete_message, in terms of histories
  // ---------------------------------------------------------------------------

  /** Ascending ids are unique. */
  lemma {:induction false} UniqueIds(rows: seq<Row>, i: nat)
    requires IdsAscending(rows)
    requires i < |rows|
    ensures forall j :: 0 <= j < |rows| && j != i ==> rows[j].id != rows[i].id
  {
    forall j | 0 <= j < |rows| && j != i
      ensures rows[j].id != rows[i].id
    {
      if j < i {
        assert rows[j].id < rows[i].id;
      } else {
        assert rows[i].id < rows[j].id;
      }
    }
  }

  /** No row after the key's last one belongs to the key. */
  lemma {:induction false} KeyTail(rows: seq<Row>, key: string, i: nat)
    requires i < |rows|
    requires forall j :: i < j < |rows| ==> rows[j].key != key
    ensures Messages(rows[i + 1..], key) == []
  {
    var post := rows[i + 1..];
    forall j | 0 <= j < |post|
      ensures post[j].key != key
    {
      assert post[j] == rows[i + 1 + j];
    }
    MessagesNoKey(post, key);
  }

  /**
    A reply with a pending question fills that question's row: the key's
    history gains the reply right after the question, and no other key's
    history changes.
   */
  lemma {:induction false} AddReplyToPending(t: Table, key: string, m: Message)
    requires Wf(t)
    requires m.role != User && PendingIndex(t.rows, key).Some?
    ensures var i := PendingIndex(t.rows, key).value;
            var q := Message(User, t.rows[i].userInput);
            var reply := if m.content.Some? then [Message(Assistant, m.content)] else [];
            && AddMessage(t, key, m).rows == t.rows[i := t.rows[i].(response := m.content)]
            && GetMessages(t, key) == Messages(t.rows[..i], key) + [q] + Messages(t.rows[i + 1..], key)
            && GetMessages(AddMessage(t, key, m), key) == Messages(t.rows[..i], key) + [q] + reply + Messages(t.rows[i + 1..], key)
  {
    var rows := t.rows;
    var i := PendingIndex(rows, key).value;
    var x := rows[i];
    var x' := x.(response := m.content);
    var q := Message(User, x.userInput);
    var reply := if m.content.Some? then [Message(Assistant, m.content)] else [];
    UniqueIds(rows, i);
    SetResponseAt(rows, i, m.content);
    ReplaceRowMessages(rows, i, x', key);
    SingleRowMessages(x, key);
    SingleRowMessages(x', key);
    assert RowMessages(x) == [q] + [];
    assert [q] + [] == [q];
    assert RowMessages(x') == [q] + reply;
    AppendAssoc(Messages(rows[..i], key), [q], reply);
  }

  /** A reply filling a pending question leaves every other key's history alone. */
  lemma {:induction false} AddReplyToPendingFrame(t: Table, key: string, m: Message)
    requires Wf(t)
    requires m.role != User && PendingIndex(t.rows, key).Some?
    ensures forall k :: k != key ==> GetMessages(AddMessage(t, key, m), k) == GetMessages(t, k)
  {
    var i := PendingIndex(t.rows, key).value;
    forall k | k != key
      ensures Messages(AddMessage(t, key, m).rows, k) == Messages(t.rows, k)
    {
      SetResponseOtherKey(t.rows, i, m.content, k);
    }
  }

  /** The key's history ends with the messages of its last row. */
  lemma {:induction false} LastRowHistory(rows: seq<Row>, key: string, i: nat)
    requires LastIndex(rows, key) == Some(i)
    ensures Messages(rows, key) == Messages(rows[..i], key) + RowMessages(rows[i])
  {
    KeyTail(rows, key, i);
    ReplaceRowMessages(rows, i, rows[i], key);
    SingleRowMessages(rows[i], key);
    assert Messages(rows, key) == Messages(rows[..i], key) + RowMessages(rows[i]) + [];
  }

  /** Clearing the reply of the key's last row leaves that row's question as the history's end. */
  lemma {:induction false} ClearLastReply(rows: seq<Row>, key: string, i: nat)
    requires IdsAscending(rows)
    requires LastIndex(rows, key) == Some(i)
    ensures Messages(SetResponse(rows, rows[i].id, None), key) == Messages(rows[..i], key) + RowMessages(rows[i].(response := None))
  {
    var x' := rows[i].(response := None);
    UniqueIds(rows, i);
    SetResponseAt(rows, i, None);
    KeyTail(rows, key, i);
    ReplaceRowMessages(rows, i, x', key);
    SingleRowMessages(x', key);
    assert Messages(rows[i := x'], key) == Messages(rows[..i], key) + RowMessages(x') + [];
  }

  /** Deleting the key's last row leaves the history of the rows before it. */
  lemma {:induction false} DropLastRow(rows: seq<Row>, key: string, i: nat)
    requires IdsAscending(rows)
    requires LastIndex(rows, key) == Some(i)
    ensures Messages(DeleteId(rows, rows[i].id), key) == Messages(rows[..i], key)
  {
    UniqueIds(rows, i);
    DeleteIdAt(rows, i);
    KeyTail(rows, key, i);
    MessagesConcat(rows[..i], rows[i + 1..], key);
    assert Messages(rows[..i], key) + [] == Messages(rows[..i], key);
  }

  /** Rewriting a row's reply does not touch the history of another key. */
  lemma {:induction false} SetResponseOtherKey(rows: seq<Row>, i: nat, v: Option<string>, k: string)
    requires IdsAscending(rows)
    requires i < |rows| && rows[i].key != k
    ensures Messages(SetResponse(rows, rows[i].id, v), k) == Messages(rows, k)
  {
    var x' := rows[i].(response := v);
    UniqueIds(rows, i);
    SetResponseAt(rows, i, v);
    ReplaceRowMessages(rows, i, x', k);
    SingleRowMessages(rows[i], k);
    SingleRowMessages(x', k);
  }

  /** Deleting a row does not touch the history of another key. */
  lemma {:induction false} DeleteIdOtherKey(rows: seq<Row>, i: nat, k: string)
    requires IdsAscending(rows)
    requires i < |rows| && rows[i].key != k
    ensures Messages(DeleteId(rows, rows[i].id), k) == Messages(rows, k)
  {
    var pre, post := Messages(rows[..i], k), Messages(rows[i + 1..], k);
    UniqueIds(rows, i);
    DeleteIdAt(rows, i);
    MessagesConcat(rows[..i], rows[i + 1..], k);
    ReplaceRowMessages(rows, i, rows[i], k);
    SingleRowMessages(rows[i], k);
    assert pre + [] + post == pre + post;
  }

  /**
    `delete_last_message` (with null tests) removes the key's last message
    and returns it; when it returns nothing the history is unchanged.
   */
  lemma {:induction false} DeleteLastMessageHistory(t: Table, key: string)
    requires Wf(t)
    ensures var (r, t') := DeleteLastMessage(t, key);
            var ms := GetMessages(t, key);
            && (r.Some? ==> |ms| > 0 && r.value == Last(ms) && GetMessages(t', key) == ms[..|ms| - 1])
            && (r.None? ==> GetMessages(t', key) == ms)
  {
    match LastIndex(t.rows, key) {
      case None =>
      case Some(i) =>
        var rows := t.rows;
        var x := rows[i];
        var pre := Messages(rows[..i], key);
        var ms := GetMessages(t, key);
        var after := GetMessages(DeleteLastMessage(t, key).1, key);
        LastRowHistory(rows, key, i);
        if x.userInput.Some? && x.response.Some? {
          var q := Message(User, x.userInput);
          ClearLastReply(rows, key, i);
          assert RowMessages(x) == [q] + [Message(Assistant, x.response)];
          assert RowMessages(x.(response := None)) == [q] + [];
          assert after == pre + [q];
          assert ms == (pre + [q]) + [Message(Assistant, x.response)];
        } else {
          DropLastRow(rows, key, i);
          assert after == pre;
          if x.userInput.Some? {
            assert RowMessages(x) == [Message(User, x.userInput)] + [];
          } else if x.response.Some? {
            assert RowMessages(x) == [] + [Message(Assistant, x.response)];
          } else {
            assert RowMessages(x) == [] + [];
            assert ms == pre + [];
          }
        }
    }
  }

  /** `delete_last_message`, as written and corrected, leaves every other key's history alone. */
  lemma {:induction false} DeleteLastMessageFrame(t: Table, key: string)
    requires Wf(t)
    ensures forall k :: k != key ==> GetMessages(DeleteLastMessage(t, key).1, k) == GetMessages(t, k)
    ensures forall k :: k != key ==> GetMessages(DeleteLastMessageAsWritten(t, key).1, k) == GetMessages(t, k)
  {
    match LastIndex(t.rows, key) {
      case None =>
      case Some(i) =>
        var rows := t.rows;
        var after := DeleteLastMessage(t, key).1.rows;
        var afterAsWritten := DeleteLastMessageAsWritten(t, key).1.rows;
        assert after == SetResponse(rows, rows[i].id, None) || after == DeleteId(rows, rows[i].id);
        assert afterAsWritten == SetResponse(rows, rows[i].id, None) || afterAsWritten == DeleteId(rows, rows[i].id);
        forall k | k != key
          ensures Messages(after, k) == Messages(rows, k)
          ensures Messages(afterAsWritten, k) == Messages(rows, k)
        {
          SetResponseOtherKey(rows, i, None, k);
          DeleteIdOtherKey(rows, i, k);
        }
    }
  }

  /** The truthiness tests agree with the null tests unless the key's last row holds an empty text. */
  lemma {:induction false} AsWrittenAgreesWithoutEmptyText(t: Table, key: string)
    requires LastIndex(t.rows, key).Some? ==>
               var x := t.rows[LastIndex(t.rows, key).value];
               x.userInput != Some("") && x.response != Some("")
    ensures DeleteLastMessageAsWritten(t, key) == DeleteLastMessage(t, key)
  {
  }

  /**
    With an empty question stored next to a reply, the as-written
    `delete_last_message` returns only the reply yet drops both messages.
   */
  lemma {:induction false} AsWrittenDropsEmptyQuestion()
    ensures var t := Table([Row(1, "k", Some(""), Some("x"))], 2);
            && GetMessages(t, "k") == [Message(User, Some("")), Message(Assistant, Some("x"))]
            && DeleteLastMessageAsWritten(t, "k").0 == Some(Message(Assistant, Some("x")))
            && GetMessages(DeleteLastMessageAsWritten(t, "k").1, "k") == []
            && GetMessages(DeleteLastMessage(t, "k").1, "k") == [Message(User, Some(""))]
  {
    var t := Table([Row(1, "k", Some(""), Some("x"))], 2);
    SingleRowMessages(t.rows[0], "k");
    assert LastIndex(t.rows, "k") == Some(0);
    assert DeleteId(t.rows, 1) == [] by {
      assert t.rows[..0] == [];
    }
    assert SetResponse(t.rows, 1, None) == [Row(1, "k", Some(""), None)];
    SingleRowMessages(Row(1, "k", Some(""), None), "k");
  }

  /**
    `delete_message` with an index inside the history stores the history
    back without that one message; other keys keep theirs.
   */
  lemma {:induction false} DeleteMessageHistory(t: Table, key: string, idx: int)
    requires Wf(t)
    requires 0 <= idx < |GetMessages(t, key)|
    ensures var ms := GetMessages(t, key);
            GetMessages(DeleteMessage(t, key, idx).1, key) == ms[..idx] + ms[idx + 1..]
    ensures forall k :: k != key ==> GetMessages(DeleteMessage(t, key, idx).1, k) == GetMessages(t, k)
  {
    var ms := GetMessages(t, key);
    var rest := ms[..idx] + ms[idx + 1..];
    forall j | 0 <= j < |rest|
      ensures (rest[j].role == User || rest[j].role == Assistant) && rest[j].content.Some?
    {
      if j < idx {
        assert rest[j] == ms[j];
      } else {
        assert rest[j] == ms[j + 1];
      }
    }
    NormalizeCanonical(rest);
    SetThenGet(t, key, rest);
    SetMessagesFrame(t, key, rest);
  }
}
